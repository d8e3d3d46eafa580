/** The snapshot cache: many callbacks of one export cycle, one sample
    (agents/common/pessimal_agent_core/src/collector.rs). */
module Collector {
  import opened Texts
  import opened MetricSeries

  const U32_MAX: nat := 0xFFFF_FFFF
  const U64_MAX: nat := 0xFFFF_FFFF_FFFF_FFFF

  datatype Observation = Observation(kind: MetricKind, value: F64, attributes: map<string, string>)

  datatype Snapshot = Snapshot(takenAt: Instant, observations: seq<Observation>)

  /** What sampling the host gave, or that it failed. */
  type Answer = Option<seq<Observation>>

  // ----- the log of samples, and what it says

  datatype Sample = Sample(at: Instant, answer: Answer)

  /** The last successful sample, with its own time. */
  function LastSuccess(log: seq<Sample>): Option<Snapshot> {
    if log == [] then None
    else
      var last := log[|log| - 1];
      if last.answer.Some? then Some(Snapshot(last.at, last.answer.value)) else LastSuccess(log[..|log| - 1])
  }

  function Failures(log: seq<Sample>): nat {
    if log == [] then 0
    else Failures(log[..|log| - 1]) + if log[|log| - 1].answer.None? then 1 else 0
  }

  /** The failures the log ends in. */
  function TrailingFailures(log: seq<Sample>): nat {
    if log == [] || log[|log| - 1].answer.Some? then 0 else TrailingFailures(log[..|log| - 1]) + 1
  }

  function Capped(n: nat, most: nat): nat {
    if n < most then n else most
  }

  ghost predicate NoSuccessBetween(log: seq<Sample>, i: int, j: int) {
    forall k :: 0 <= k < |log| && i < k < j ==> log[k].answer.None?
  }

  /** A sample that follows a successful one, with only failures in between, is at least `maxAge` later. */
  ghost predicate IsSpaced(log: seq<Sample>, maxAge: int) {
    forall i, j :: 0 <= i < j < |log| && log[i].answer.Some? && NoSuccessBetween(log, i, j) ==>
      log[j].at - log[i].at >= maxAge
  }

  predicate IsFresh(log: seq<Sample>, maxAge: int, now: Instant) {
    LastSuccess(log).Some? && now - LastSuccess(log).value.takenAt < maxAge
  }

  /** The log after a callback at `now`, for which sampling would give `answer`. */
  function AfterCall(log: seq<Sample>, maxAge: int, now: Instant, answer: Answer): seq<Sample> {
    if IsFresh(log, maxAge, now) then log else log + [Sample(now, answer)]
  }

  /** What a callback is given: the last success with its original time, or an empty snapshot. */
  function Shown(log: seq<Sample>, now: Instant): Snapshot {
    if LastSuccess(log).Some? then LastSuccess(log).value else Snapshot(now, [])
  }

  // ----- the cache

  class CachedCollector {
    const maxAge: int
    var snapshot: Option<Snapshot>
    var consecutiveFailures: nat
    var totalFailures: nat
    ghost var log: seq<Sample>

    ghost predicate Valid()
      reads this
    {
      && snapshot == LastSuccess(log)
      && consecutiveFailures == Capped(TrailingFailures(log), U32_MAX)
      && totalFailures == Capped(Failures(log), U64_MAX)
      && IsSpaced(log, maxAge)
    }

    constructor (age: int)
      ensures maxAge == age && log == [] && Valid()
    {
      maxAge := age;
      snapshot := None;
      consecutiveFailures := 0;
      totalFailures := 0;
      log := [];
    }

    /** `snapshot`: samples only when the last success has aged out; the snapshot returned is younger than
        `maxAge`, or taken just now, or the sample just taken failed. */
    method TakeSnapshot(now: Instant, answer: Answer) returns (r: Snapshot)
      requires Valid()
      modifies this
      ensures Valid()
      ensures log == AfterCall(old(log), maxAge, now, answer)
      ensures r == Shown(log, now)
      ensures now - r.takenAt < maxAge || r.takenAt == now || (log == old(log) + [Sample(now, None)])
    {
      LastSuccessIsThere(log);
      if snapshot.Some? && now - snapshot.value.takenAt < maxAge {
        return snapshot.value;
      }
      StaysSpaced(log, maxAge, Sample(now, answer));
      log := log + [Sample(now, answer)];
      assert log[..|log| - 1] == old(log);
      if answer.Some? {
        consecutiveFailures := 0;
        r := Snapshot(now, answer.value);
        snapshot := Some(r);
      } else {
        consecutiveFailures := if consecutiveFailures < U32_MAX then consecutiveFailures + 1 else consecutiveFailures;
        totalFailures := if totalFailures < U64_MAX then totalFailures + 1 else totalFailures;
        r := if snapshot.Some? then snapshot.value else Snapshot(now, []);
      }
    }
  }

  ghost predicate IsLastSuccess(log: seq<Sample>, i: nat) {
    i < |log| && log[i].answer.Some? && NoSuccessBetween(log, i, |log|)
  }

  /** The last success is in the log, and every later sample failed. */
  lemma {:induction false} LastSuccessIsThere(log: seq<Sample>)
    ensures forall i: nat :: IsLastSuccess(log, i) ==>
      LastSuccess(log) == Some(Snapshot(log[i].at, log[i].answer.value))
    ensures LastSuccess(log).Some? ==> exists i: nat :: IsLastSuccess(log, i)
  {
    if log != [] {
      var most, n := log[..|log| - 1], |log| - 1;
      LastSuccessIsThere(most);
      if log[n].answer.Some? {
        assert IsLastSuccess(log, n);
      } else {
        forall i: nat ensures IsLastSuccess(log, i) <==> IsLastSuccess(most, i) {
          if IsLastSuccess(most, i) {
            assert forall k :: 0 <= k < n ==> most[k] == log[k];
          }
        }
      }
    }
  }

  lemma StaysSpaced(log: seq<Sample>, maxAge: int, s: Sample)
    requires IsSpaced(log, maxAge) && !IsFresh(log, maxAge, s.at)
    ensures IsSpaced(log + [s], maxAge)
  {
    hide LastSuccess;
    LastSuccessIsThere(log);
    var all := log + [s];
    forall i, j | 0 <= i < j < |all| && all[i].answer.Some? && NoSuccessBetween(all, i, j)
      ensures all[j].at - all[i].at >= maxAge
    {
      assert forall k :: 0 <= k < |log| ==> all[k] == log[k];
      if j == |log| {
        assert NoSuccessBetween(log, i, |log|);
        assert IsLastSuccess(log, i);
      } else {
        assert NoSuccessBetween(log, i, j);
      }
    }
  }

  /** The samples of the log that failed. */
  function FailedOf(log: seq<Sample>): set<int> {
    set i | 0 <= i < |log| && log[i].answer.None?
  }

  lemma {:induction false} FailuresAreAll(log: seq<Sample>)
    ensures Failures(log) == |FailedOf(log)|
  {
    if log == [] {
      assert FailedOf(log) == {};
    } else {
      var most, last := log[..|log| - 1], |log| - 1;
      FailuresAreAll(most);
      assert FailedOf(log) == FailedOf(most) + if log[last].answer.None? then {last} else {};
    }
  }

  lemma {:induction false} TrailingFailuresAreLast(log: seq<Sample>)
    ensures var n := TrailingFailures(log);
      n <= |log| && (forall i :: |log| - n <= i < |log| ==> log[i].answer.None?)
      && (n < |log| ==> log[|log| - n - 1].answer.Some?)
  {
    if log != [] {
      TrailingFailuresAreLast(log[..|log| - 1]);
    }
  }

  /** What is counted: all failed samples, and those since the last one that succeeded. */
  lemma FailuresAreCounted(log: seq<Sample>)
    ensures Failures(log) == |FailedOf(log)|
    ensures var n := TrailingFailures(log);
      n <= |log| && (forall i :: |log| - n <= i < |log| ==> log[i].answer.None?)
      && (n < |log| ==> log[|log| - n - 1].answer.Some?)
  {
    hide Failures, TrailingFailures, FailedOf;
    FailuresAreAll(log);
    TrailingFailuresAreLast(log);
  }

  /** Successful samples are at least `maxAge` apart, any two of them. */
  lemma {:induction false} SuccessesAreFarApart(log: seq<Sample>, maxAge: int, i: nat, j: nat)
    requires IsSpaced(log, maxAge) && maxAge >= 0
    requires i < j < |log| && log[i].answer.Some? && log[j].answer.Some?
    ensures log[j].at - log[i].at >= maxAge
    decreases j - i
  {
    if !NoSuccessBetween(log, i, j) {
      var k :| 0 <= k < |log| && i < k < j && log[k].answer.Some?;
      SuccessesAreFarApart(log, maxAge, i, k);
      SuccessesAreFarApart(log, maxAge, k, j);
    }
  }

  // ----- cycles of callbacks

  datatype Call = Call(now: Instant, answer: Answer)

  /** The log after some callbacks. */
  function AfterCalls(log: seq<Sample>, maxAge: int, calls: seq<Call>): seq<Sample> {
    if calls == [] then log
    else
      var last := calls[|calls| - 1];
      AfterCall(AfterCalls(log, maxAge, calls[..|calls| - 1]), maxAge, last.now, last.answer)
  }

  /** What the callback at `k` is given. */
  function ShownAt(log: seq<Sample>, maxAge: int, calls: seq<Call>, k: nat): Snapshot
    requires k < |calls|
  {
    Shown(AfterCalls(log, maxAge, calls[..k + 1]), calls[k].now)
  }

  datatype Cycle = Cycle(start: Instant, calls: seq<Call>)

  /** Its callbacks come at most `span` after its start. */
  predicate IsCycle(c: Cycle, span: int) {
    c.calls != [] && forall k :: 0 <= k < |c.calls| ==> 0 <= c.calls[k].now - c.start <= span
  }

  /** No success younger than `maxAge` at the start of the cycle. */
  predicate IsAgedOut(log: seq<Sample>, maxAge: int, start: Instant) {
    LastSuccess(log).Some? ==> LastSuccess(log).value.takenAt + maxAge <= start
  }

  lemma {:induction false} FirstSampleServesAll(log: seq<Sample>, maxAge: int, c: Cycle, span: int, k: nat)
    requires IsCycle(c, span) && span < maxAge && IsAgedOut(log, maxAge, c.start)
    requires c.calls[0].answer.Some? && k < |c.calls|
    ensures AfterCalls(log, maxAge, c.calls[..k + 1]) == log + [Sample(c.calls[0].now, c.calls[0].answer)]
    ensures ShownAt(log, maxAge, c.calls, k) == Snapshot(c.calls[0].now, c.calls[0].answer.value)
  {
    var first := c.calls[0];
    var calls := c.calls[..k + 1];
    var after := log + [Sample(first.now, first.answer)];
    assert calls[..k] == c.calls[..k];
    assert LastSuccess(after) == Some(Snapshot(first.now, first.answer.value));
    if k == 0 {
      assert calls[..0] == [];
    } else {
      FirstSampleServesAll(log, maxAge, c, span, k - 1);
    }
  }

  /** A success in a cycle is a success before it or one of its callbacks. */
  lemma {:induction false} SuccessesAreInTheCycle(log: seq<Sample>, maxAge: int, c: Cycle, span: int, k: nat)
    requires IsCycle(c, span) && k <= |c.calls|
    ensures var after := AfterCalls(log, maxAge, c.calls[..k]);
      LastSuccess(after) == LastSuccess(log)
      || (LastSuccess(after).Some? && LastSuccess(after).value.takenAt <= c.start + span)
  {
    if k > 0 {
      SuccessesAreInTheCycle(log, maxAge, c, span, k - 1);
      var calls := c.calls[..k];
      assert calls[..k - 1] == c.calls[..k - 1];
      var before := AfterCalls(log, maxAge, c.calls[..k - 1]);
      var last := c.calls[k - 1];
      assert (before + [Sample(last.now, last.answer)])[..|before|] == before;
    }
  }

  /** Export cycles at least `interval` apart. */
  predicate IsSchedule(cycles: seq<Cycle>, interval: int, span: int) {
    (forall j :: 0 <= j < |cycles| ==> IsCycle(cycles[j], span))
    && forall j :: 0 <= j < |cycles| - 1 ==> cycles[j].start + interval <= cycles[j + 1].start
  }

  function AfterCycles(maxAge: int, cycles: seq<Cycle>): seq<Sample> {
    if cycles == [] then []
    else AfterCalls(AfterCycles(maxAge, cycles[..|cycles| - 1]), maxAge, cycles[|cycles| - 1].calls)
  }

  lemma {:induction false} CyclesAgeOut(maxAge: int, interval: int, span: int, cycles: seq<Cycle>, j: nat)
    requires IsSchedule(cycles, interval, span) && span <= interval - maxAge && maxAge >= 0 && j < |cycles|
    ensures IsAgedOut(AfterCycles(maxAge, cycles[..j]), maxAge, cycles[j].start)
  {
    if j > 0 {
      CyclesAgeOut(maxAge, interval, span, cycles, j - 1);
      var before, c := AfterCycles(maxAge, cycles[..j - 1]), cycles[j - 1];
      assert cycles[..j][..j - 1] == cycles[..j - 1];
      SuccessesAreInTheCycle(before, maxAge, c, span, |c.calls|);
      assert c.calls[..|c.calls|] == c.calls;
      assert c.calls[0].now - c.start <= span;
    }
  }

  /** With callbacks that span less than `maxAge` and at most `interval - maxAge`, the first callback of every
      cycle samples; if that succeeds it is the cycle's only sample, and all its callbacks are given it. */
  lemma EveryCycleSamplesOnce(maxAge: int, interval: int, span: int, cycles: seq<Cycle>, j: nat)
    requires IsSchedule(cycles, interval, span) && span < maxAge && span <= interval - maxAge && j < |cycles|
    ensures var log := AfterCycles(maxAge, cycles[..j]); var calls := cycles[j].calls;
      !IsFresh(log, maxAge, calls[0].now)
      && (calls[0].answer.Some? ==>
            && AfterCycles(maxAge, cycles[..j + 1]) == log + [Sample(calls[0].now, calls[0].answer)]
            && forall k :: 0 <= k < |calls| ==>
                 ShownAt(log, maxAge, calls, k) == Snapshot(calls[0].now, calls[0].answer.value))
  {
    hide LastSuccess, ShownAt;
    var log, c := AfterCycles(maxAge, cycles[..j]), cycles[j];
    assert IsCycle(c, span);
    assert c.calls[0].now - c.start >= 0 && span >= 0;
    CyclesAgeOut(maxAge, interval, span, cycles, j);
    assert cycles[..j + 1][..j] == cycles[..j];
    if c.calls[0].answer.Some? {
      forall k: nat | k < |c.calls|
        ensures ShownAt(log, maxAge, c.calls, k) == Snapshot(c.calls[0].now, c.calls[0].answer.value)
      {
        FirstSampleServesAll(log, maxAge, c, span, k);
      }
      FirstSampleServesAll(log, maxAge, c, span, |c.calls| - 1);
      assert c.calls[..|c.calls|] == c.calls;
    }
  }

  /** The bound on the span is needed: callbacks that span `maxAge` can take two samples in one cycle. */
  lemma LongCycleSamplesTwice(maxAge: int, answer: Answer)
    requires 0 < maxAge <= LATEST && answer.Some?
    ensures var c := Cycle(0, [Call(0, answer), Call(maxAge, answer)]);
      IsCycle(c, maxAge) && |AfterCalls([], maxAge, c.calls)| == 2
  {
    var calls := [Call(0, answer), Call(maxAge, answer)];
    assert calls[..1] == [calls[0]] && [calls[0]][..0] == [];
    assert AfterCalls([], maxAge, [calls[0]]) == [Sample(0, answer)];
  }
}
