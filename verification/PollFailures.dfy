/** A poll's failures as data, and which of them a user is shown
    (clients/common/pessimal_client_core/src/error.rs). */
module PollFailures {
  import opened Texts
  import opened MetricSeries

  function Position(kind: MetricKind): nat {
    match kind
    case CpuUtilization => 0
    case MemoryUtilization => 1
    case MemoryUsage => 2
    case FilesystemUtilization => 3
    case FilesystemUsage => 4
    case NetworkIo => 5
    case LoadAverage1m => 6
    case LoadAverage5m => 7
    case LoadAverage15m => 8
    case SystemUptime => 9
    case Temperature => 10
    case AgentHeartbeat => 11
    case AgentCollectionFailures => 12
  }

  datatype CoreError =
    | InvalidUrn(message: string) | InvalidRule(message: string) | InvalidTimeRange(message: string)
    | UnknownMetric(message: string) | RuleNotFound(message: string) | BackendError(message: string)
    | NotAuthorised | NotReached(message: string)

  /** How an error reads. */
  function Rendered(e: CoreError): string {
    match e
    case InvalidUrn(m) => "invalid URN: " + m
    case InvalidRule(m) => "invalid alert rule: " + m
    case InvalidTimeRange(m) => "invalid time range: " + m
    case UnknownMetric(m) => "unknown metric: " + m
    case RuleNotFound(m) => "no such alert rule: " + m
    case BackendError(m) => "telemetry backend error: " + m
    case NotAuthorised => "not authorised for the telemetry backend"
    case NotReached(m) => "telemetry backend is unreachable: " + m
  }

  datatype FailureKind = Unauthorized | Unreachable | Backend | Malformed

  /** `PollFailureKind::from_core` */
  function KindOf(e: CoreError): FailureKind {
    match e
    case NotAuthorised => Unauthorized
    case NotReached(_) => Unreachable
    case BackendError(_) => Backend
    case _ => Malformed
  }

  function Rank(kind: FailureKind): nat {
    match kind
    case Unauthorized => 3
    case Unreachable => 2
    case Backend => 1
    case Malformed => 0
  }

  datatype FailureSource = Roster | OfSeries(metric: MetricKind)

  datatype PollFailure = PollFailure(kind: FailureKind, source: FailureSource, message: string, at: Instant)

  /** `PollFailure::from_core` */
  function FailureOf(e: CoreError, source: FailureSource, at: Instant): PollFailure {
    PollFailure(KindOf(e), source, Rendered(e), at)
  }

  /** What kind each error is, and that its source and its instant are kept. */
  lemma KindsAreThese(e: CoreError, source: FailureSource, at: Instant)
    ensures FailureOf(e, source, at).kind == Unauthorized <==> e.NotAuthorised?
    ensures FailureOf(e, source, at).kind == Unreachable <==> e.NotReached?
    ensures FailureOf(e, source, at).kind == Backend <==> e.BackendError?
    ensures FailureOf(e, source, at).source == source && FailureOf(e, source, at).at == at
  {
  }

  // ----- the order

  /** `ranking_key`: the most severe first, the roster before any series, then metric, message and instant. */
  datatype Key = Key(reversedRank: int, sourceOrder: nat, metric: Option<MetricKind>, message: string, at: Instant)

  function KeyOf(f: PollFailure): Key {
    match f.source
    case Roster => Key(3 - Rank(f.kind), 0, None, f.message, f.at)
    case OfSeries(metric) => Key(3 - Rank(f.kind), 1, Some(metric), f.message, f.at)
  }

  /** `None` comes before any metric. */
  function MetricOrder(metric: Option<MetricKind>): int {
    if metric.None? then -1 else Position(metric.value)
  }

  /** Tuples compare field by field. */
  predicate KeyLess(a: Key, b: Key) {
    a.reversedRank < b.reversedRank
    || (a.reversedRank == b.reversedRank
        && (a.sourceOrder < b.sourceOrder
            || (a.sourceOrder == b.sourceOrder
                && (MetricOrder(a.metric) < MetricOrder(b.metric)
                    || (a.metric == b.metric
                        && (Less(a.message, b.message) || (a.message == b.message && a.at < b.at)))))))
  }

  predicate IsWorse(a: PollFailure, b: PollFailure) {
    KeyLess(KeyOf(a), KeyOf(b))
  }

  /** Two failures with the same key are the same failure. */
  lemma KeysAreFaithful(a: PollFailure, b: PollFailure)
    ensures KeyOf(a) == KeyOf(b) <==> a == b
  {
  }

  lemma MetricOrderIsFaithful(a: Option<MetricKind>, b: Option<MetricKind>)
    ensures MetricOrder(a) == MetricOrder(b) <==> a == b
  {
  }

  /** A total order: of any two different failures exactly one is worse. */
  lemma OneIsWorse(a: PollFailure, b: PollFailure)
    ensures IsWorse(a, b) || IsWorse(b, a) || a == b
    ensures IsWorse(a, b) ==> !IsWorse(b, a) && a != b
  {
    hide Less;
    KeysAreFaithful(a, b);
    MetricOrderIsFaithful(KeyOf(a).metric, KeyOf(b).metric);
    LessIsTotal(a.message, b.message);
    if Less(a.message, b.message) {
      LessIsAsymmetric(a.message, b.message);
    }
    if Less(b.message, a.message) {
      LessIsAsymmetric(b.message, a.message);
    }
  }

  lemma WorseIsTransitive(a: PollFailure, b: PollFailure, c: PollFailure)
    requires IsWorse(a, b) && IsWorse(b, c)
    ensures IsWorse(a, c)
  {
    hide Less, KeyOf, Rendered;
    if Less(a.message, b.message) && Less(b.message, c.message) {
      LessIsTransitive(a.message, b.message, c.message);
    }
    KeyKeepsTheMessage(a);
    KeyKeepsTheMessage(b);
    KeyKeepsTheMessage(c);
    MetricOrderIsFaithful(KeyOf(a).metric, KeyOf(b).metric);
    MetricOrderIsFaithful(KeyOf(b).metric, KeyOf(c).metric);
  }

  lemma KeyKeepsTheMessage(f: PollFailure)
    ensures KeyOf(f).message == f.message
  {
  }

  // ----- what the order is

  /** What the error is decides first: a refused credential, then an unreachable backend, then its errors, then
      everything else, whatever they are of and whenever they came. */
  lemma ErrorsRankFirst(e: CoreError, f: CoreError, s: FailureSource, t: FailureSource, a: Instant, b: Instant)
    ensures e.NotAuthorised? && !f.NotAuthorised? ==> IsWorse(FailureOf(e, s, a), FailureOf(f, t, b))
    ensures e.NotReached? && !f.NotAuthorised? && !f.NotReached? ==> IsWorse(FailureOf(e, s, a), FailureOf(f, t, b))
    ensures e.BackendError? && !f.NotAuthorised? && !f.NotReached? && !f.BackendError? ==>
      IsWorse(FailureOf(e, s, a), FailureOf(f, t, b))
  {
    hide Rendered;
  }

  const METRICS := [
    CpuUtilization, MemoryUtilization, MemoryUsage, FilesystemUtilization, FilesystemUsage, NetworkIo,
    LoadAverage1m, LoadAverage5m, LoadAverage15m, SystemUptime, Temperature, AgentHeartbeat, AgentCollectionFailures]

  /** Among failures of one kind the roster's comes first, then the metrics' in their order; of one source the lesser
      message, and of one message the earlier instant. */
  lemma TiesAreBroken(f: PollFailure, g: PollFailure, i: nat, j: nat)
    requires f.kind == g.kind
    ensures f.source.Roster? && g.source.OfSeries? ==> IsWorse(f, g)
    ensures i < j < |METRICS| && f.source == OfSeries(METRICS[i]) && g.source == OfSeries(METRICS[j]) ==> IsWorse(f, g)
    ensures f.source == g.source && Less(f.message, g.message) ==> IsWorse(f, g)
    ensures f.source == g.source && f.message == g.message && f.at < g.at ==> IsWorse(f, g)
  {
    if i < j < |METRICS| {
      MetricsAreInOrder(i);
      MetricsAreInOrder(j);
    }
  }

  lemma MetricsAreInOrder(i: nat)
    requires i < |METRICS|
    ensures Position(METRICS[i]) == i
  {
  }

  // ----- the worst

  /** Nothing in the list is worse. */
  ghost predicate IsWorst(f: PollFailure, failures: seq<PollFailure>) {
    f in failures && forall g :: g in failures ==> !IsWorse(g, f)
  }

  /** `worst_failure` */
  method WorstFailure(failures: seq<PollFailure>) returns (r: Option<PollFailure>)
    ensures failures == [] <==> r.None?
    ensures r.Some? ==> IsWorst(r.value, failures)
  {
    hide IsWorse;
    if failures == [] { return None; }
    var worst := failures[0];
    OneIsWorse(worst, worst);
    var i := 1;
    while i < |failures|
      invariant 1 <= i <= |failures|
      invariant IsWorst(worst, failures[..i])
    {
      ghost var before := worst;
      OneIsWorse(failures[i], failures[i]);
      OneIsWorse(failures[i], before);
      if IsWorse(failures[i], worst) {
        worst := failures[i];
        forall g | g in failures[..i] ensures !IsWorse(g, worst) {
          OneIsWorse(g, before);
          if IsWorse(g, worst) {
            WorseIsTransitive(g, worst, before);
          }
        }
      }
      assert failures[..i + 1] == failures[..i] + [failures[i]];
      i := i + 1;
    }
    assert failures[..i] == failures;
    r := Some(worst);
  }

  /** Lists of the same failures, in any order and however often repeated, have the same worst one. */
  lemma WorstIsOrderFree(a: seq<PollFailure>, b: seq<PollFailure>, x: PollFailure, y: PollFailure)
    requires (forall f :: f in a <==> f in b) && IsWorst(x, a) && IsWorst(y, b)
    ensures x == y
  {
    hide IsWorse;
    OneIsWorse(x, y);
  }
}
