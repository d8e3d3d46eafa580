/** Issuing a poll's requests all at once and recording what each answered
    (clients/common/pessimal_client_core/src/gather.rs). */
module Gather {
  import opened Texts
  import opened MetricSeries
  import opened PollFailures

  datatype Answer<+T> = Answered(value: T) | Refused(error: CoreError)

  /** One query of a plan; the window and the step are not looked at here. */
  datatype QuerySpec = QuerySpec(metric: MetricKind, selector: string, range: TimeRange, step: int)

  datatype Plan = Plan(now: Instant, hostRange: TimeRange, queries: seq<QuerySpec>)

  type Hosts = seq<string>
  type SeriesList = seq<Series>

  datatype RosterOutcome = NotAttempted | Listed(hosts: Hosts) | RosterFailed(failure: PollFailure)

  datatype SeriesResult = Returned(series: SeriesList) | SeriesFailed(failure: PollFailure)

  datatype SeriesOutcome = SeriesOutcome(spec: QuerySpec, result: SeriesResult)

  datatype Observation = Observation(observedAt: Instant, hosts: RosterOutcome, series: seq<SeriesOutcome>)

  /** What the backend answers to the roster request, and to each query of the plan. */
  datatype Answers = Answers(roster: Answer<Hosts>, answers: seq<Answer<SeriesList>>)

  function RosterOf(plan: Plan, b: Answers): RosterOutcome {
    match b.roster
    case Answered(hosts) => Listed(hosts)
    case Refused(error) => RosterFailed(FailureOf(error, Roster, plan.now))
  }

  function ResultOf(plan: Plan, b: Answers, i: nat): SeriesResult
    requires i < |plan.queries| == |b.answers|
  {
    match b.answers[i]
    case Answered(series) => Returned(series)
    case Refused(error) => SeriesFailed(FailureOf(error, OfSeries(plan.queries[i].metric), plan.now))
  }

  /** One outcome per query, in plan order, each with its own spec. */
  ghost predicate IsRecord(o: Observation, plan: Plan, b: Answers) {
    |plan.queries| == |b.answers|
    && o.observedAt == plan.now && o.hosts == RosterOf(plan, b) && |o.series| == |plan.queries|
    && forall i :: 0 <= i < |o.series| ==> o.series[i] == SeriesOutcome(plan.queries[i], ResultOf(plan, b, i))
  }

  /** Nothing a backend answered is lost: each answered query's own series, whole, under its own spec, and each
      refused one a failure of its own; likewise the roster. */
  lemma AnswersAreKept(o: Observation, plan: Plan, b: Answers, i: nat)
    requires IsRecord(o, plan, b) && i < |plan.queries|
    ensures o.observedAt == plan.now && |o.series| == |plan.queries| && o.series[i].spec == plan.queries[i]
    ensures b.answers[i].Answered? ==> o.series[i].result == Returned(b.answers[i].value)
    ensures b.answers[i].Refused? ==> o.series[i].result.SeriesFailed?
    ensures b.roster.Answered? ==> o.hosts == Listed(b.roster.value)
    ensures b.roster.Refused? ==> o.hosts.RosterFailed?
  {
    assert o.series[i] == SeriesOutcome(plan.queries[i], ResultOf(plan, b, i));
  }

  /** A request: the roster's, or the one of a query. */
  datatype Request = ForRoster | ForQuery(i: nat)

  function Requests(plan: Plan): set<Request> {
    {ForRoster} + set i | 0 <= i < |plan.queries| :: ForQuery(i)
  }

  lemma RequestsOf(plan: Plan)
    ensures ForRoster in Requests(plan)
    ensures forall i: nat :: ForQuery(i) in Requests(plan) <==> i < |plan.queries|
  {
  }

  /** `execute_plan`: the requests complete in any order, one at a time until none is outstanding; what is
      recorded does not depend on that order. */
  method ExecutePlan(plan: Plan, b: Answers) returns (o: Observation)
    requires |plan.queries| == |b.answers|
    ensures IsRecord(o, plan, b)
  {
    hide RosterOf, ResultOf, Requests;
    RequestsOf(plan);
    var roster := NotAttempted;
    var slots: map<nat, SeriesResult> := map[];
    var outstanding := Requests(plan);
    while outstanding != {}
      invariant outstanding <= Requests(plan)
      invariant ForRoster !in outstanding ==> roster == RosterOf(plan, b)
      invariant forall i: nat :: i < |plan.queries| && ForQuery(i) !in outstanding ==>
        i in slots && slots[i] == ResultOf(plan, b, i)
      decreases |outstanding|
    {
      var request :| request in outstanding;
      match request {
        case ForRoster => roster := RosterOf(plan, b);
        case ForQuery(i) => slots := slots[i := ResultOf(plan, b, i)];
      }
      outstanding := outstanding - {request};
    }
    o := Observation(plan.now, roster, []);
    var i := 0;
    while i < |plan.queries|
      invariant 0 <= i <= |plan.queries|
      invariant o.observedAt == plan.now && o.hosts == RosterOf(plan, b) && |o.series| == i
      invariant forall j :: 0 <= j < i ==> o.series[j] == SeriesOutcome(plan.queries[j], ResultOf(plan, b, j))
    {
      o := o.(series := o.series + [SeriesOutcome(plan.queries[i], slots[i])]);
      i := i + 1;
    }
  }

  // ----- every schedule

  /** What is known after some requests completed, in that order. */
  datatype Progress = Progress(roster: RosterOutcome, slots: map<nat, SeriesResult>)

  function Completed(plan: Plan, b: Answers, order: seq<Request>): Progress
    requires |plan.queries| == |b.answers| && forall r :: r in order ==> r in Requests(plan)
  {
    if order == [] then Progress(NotAttempted, map[])
    else
      var before := Completed(plan, b, order[..|order| - 1]);
      assert order[|order| - 1] in order && order[|order| - 1] in Requests(plan);
      match order[|order| - 1]
      case ForRoster => before.(roster := RosterOf(plan, b))
      case ForQuery(i) => before.(slots := before.slots[i := ResultOf(plan, b, i)])
  }

  /** How many requests are still out. */
  function Outstanding(plan: Plan, order: seq<Request>): nat {
    |Requests(plan) - set r | r in order|
  }

  ghost predicate IsComplete(plan: Plan, order: seq<Request>) {
    (forall r :: r in order <==> r in Requests(plan))
  }

  lemma {:induction false} ProgressIsWhatCompleted(plan: Plan, b: Answers, order: seq<Request>)
    requires |plan.queries| == |b.answers| && forall r :: r in order ==> r in Requests(plan)
    ensures var p := Completed(plan, b, order);
      p.roster == (if ForRoster in order then RosterOf(plan, b) else NotAttempted)
      && (forall i: nat :: i in p.slots <==> ForQuery(i) in order)
      && forall i: nat :: i in p.slots ==> i < |plan.queries| && p.slots[i] == ResultOf(plan, b, i)
  {
    hide RosterOf, ResultOf, Requests;
    RequestsOf(plan);
    if order != [] {
      var most, last := order[..|order| - 1], order[|order| - 1];
      ProgressIsWhatCompleted(plan, b, most);
      assert order == most + [last];
    }
  }

  /** Any two complete schedules know the same in the end, and a schedule is complete exactly when nothing is
      outstanding. */
  lemma ScheduleDoesNotMatter(plan: Plan, b: Answers, a: seq<Request>, c: seq<Request>)
    requires |plan.queries| == |b.answers| && IsComplete(plan, a) && IsComplete(plan, c)
    ensures Completed(plan, b, a) == Completed(plan, b, c)
    ensures Outstanding(plan, a) == 0
  {
    hide Completed, Requests;
    ProgressIsWhatCompleted(plan, b, a);
    ProgressIsWhatCompleted(plan, b, c);
    assert Completed(plan, b, a).slots == Completed(plan, b, c).slots;
    assert Requests(plan) - (set r | r in a) == {};
  }

  /** Each completion of a request that was out leaves one less. */
  lemma OneLessOutstanding(plan: Plan, order: seq<Request>, r: Request)
    requires r in Requests(plan) && r !in order
    ensures Outstanding(plan, order + [r]) == Outstanding(plan, order) - 1
  {
    hide Requests;
    var out := Requests(plan) - set q | q in order;
    assert Requests(plan) - (set q | q in order + [r]) == out - {r};
    assert r in out;
  }

  // ----- the failures of a record

  function FailuresIn(series: seq<SeriesOutcome>): seq<PollFailure> {
    if series == [] then []
    else
      FailuresIn(series[..|series| - 1])
      + if series[|series| - 1].result.SeriesFailed? then [series[|series| - 1].result.failure] else []
  }

  /** The queries that were refused. */
  function RefusedAmong(b: Answers, n: nat): seq<nat>
    requires n <= |b.answers|
  {
    if n == 0 then [] else RefusedAmong(b, n - 1) + if b.answers[n - 1].Refused? then [n - 1] else []
  }

  /** One failure for each refused query, in plan order, of its own metric and stamped with the poll's instant. */
  lemma {:induction false} OneFailurePerRefusal(o: Observation, plan: Plan, b: Answers, n: nat)
    requires IsRecord(o, plan, b) && n <= |plan.queries|
    ensures var failures, refused := FailuresIn(o.series[..n]), RefusedAmong(b, n);
      |failures| == |refused|
      && (forall k :: 0 <= k < |refused| ==> refused[k] < n && b.answers[refused[k]].Refused?)
      && forall k :: 0 <= k < |refused| ==> var i := refused[k];
           failures[k] == FailureOf(b.answers[i].error, OfSeries(plan.queries[i].metric), plan.now)
  {
    hide FailureOf;
    if n > 0 {
      OneFailurePerRefusal(o, plan, b, n - 1);
      assert o.series[..n][..n - 1] == o.series[..n - 1];
      assert o.series[n - 1] == SeriesOutcome(plan.queries[n - 1], ResultOf(plan, b, n - 1));
    }
  }

  /** The roster's failure is there exactly when the roster was refused. */
  lemma RosterFailureIsRecorded(o: Observation, plan: Plan, b: Answers)
    requires IsRecord(o, plan, b)
    ensures o.hosts.RosterFailed? <==> b.roster.Refused?
    ensures b.roster.Refused? ==> o.hosts.failure == FailureOf(b.roster.error, Roster, plan.now)
  {
  }
}
