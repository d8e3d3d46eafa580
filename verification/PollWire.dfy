/** The records of a poll result as they cross between the Rust core and the Swift client: the order each
    converter writes in and the order it reads in, taken separately
    (clients/apple/PessimalFFI/Sources/PessimalFFI.swift). */
module PlainEnums {
  import opened Wire

  /** An enum whose cases carry nothing. */
  function Plain(names: seq<string>): Shape {
    Enum(seq(|names|, i requires 0 <= i < |names| => Field(names[i], Record([]))))
  }
}

module PollWritten {
  import opened Wire
  import opened PlainEnums

  // What each `write` puts on the wire, in its order.

  const METRIC_KIND := Plain(["cpuUtilization", "memoryUtilization", "memoryUsage", "filesystemUtilization",
      "filesystemUsage", "networkIo", "loadAverage1m", "loadAverage5m", "loadAverage15m", "systemUptime",
      "temperature", "agentHeartbeat", "agentCollectionFailures"])
  const METRIC_UNIT := Plain(["ratio", "bytes", "seconds", "count", "load", "celsius"])
  const METRIC_AVAILABILITY := Plain(["present", "notReported", "unsupported", "unavailable"])
  const OS_FAMILY := Plain(["linux", "darwin", "windows", "other"])
  const LIVENESS := Plain(["alive", "stale", "down", "unknown"])
  const SEVERITY := Plain(["ok", "unknown", "warning", "critical"])
  const COMPARATOR := Plain(["greaterThan", "greaterThanOrEqual", "lessThan", "lessThanOrEqual"])
  const ALERT_PHASE := Plain(["ok", "pending", "firing", "noData"])
  const POLL_FAILURE_KIND := Plain(["unauthorized", "unreachable", "backend", "malformed"])
  const ALERT_EVIDENCE := Enum([Field("fresh", Record([])), Field("frozen", Record([Field("sinceMillis", I64)]))])
  const COLLECTION_HEALTH := Enum([Field("healthy", Record([])),
      Field("failing", Record([Field("added", F64), Field("overSeconds", I64)])), Field("unknown", Record([]))])
  const POLL_FAILURE_SOURCE := Enum([Field("roster", Record([])),
      Field("series", Record([Field("metric", METRIC_KIND)]))])
  const POLL_ADVICE := Enum([Field("poll", Record([Field("afterSeconds", I64)])),
      Field("retry", Record([Field("afterSeconds", I64), Field("consecutiveFailures", U32)])),
      Field("stop", Record([Field("reason", POLL_FAILURE_KIND), Field("message", Text)]))])
  const TUNING_WARNING := Enum([Field("spikeCanFire", Record([Field("ruleId", Text), Field("ruleName", Text)])),
      Field("counterThresholdIsRate", Record([Field("ruleId", Text), Field("metric", METRIC_KIND)])),
      Field("selectorMatchesNothing", Record([Field("ruleId", Text), Field("ruleName", Text)]))])
  const ATTRIBUTE := Record([Field("key", Text), Field("value", Text)])
  const METRIC_POINT := Record([Field("atMillis", I64), Field("value", F64)])
  const METRIC_VIEW := Record([Field("id", Text), Field("kind", METRIC_KIND), Field("unit", METRIC_UNIT),
      Field("displayName", Text), Field("label", Optional(Text)), Field("attributes", Sequence(ATTRIBUTE)),
      Field("latest", Optional(METRIC_POINT)), Field("points", Sequence(METRIC_POINT)),
      Field("availability", METRIC_AVAILABILITY), Field("isRate", Bool), Field("expectedStepSeconds", I64),
      Field("resetsMillis", Sequence(I64)), Field("fetchedAtMillis", Optional(I64))])
  const CAPACITY := Record([Field("kind", METRIC_KIND), Field("usedBytes", F64), Field("totalBytes", Optional(F64)),
      Field("freeBytes", Optional(F64)), Field("utilization", Optional(F64)), Field("atMillis", I64)])
  const CAPACITY_ENTRY := Record([Field("id", Text), Field("label", Optional(Text)), Field("capacity", CAPACITY)])
  const HOST_VIEW := Record([Field("id", Text), Field("os", OS_FAMILY), Field("agentVersion", Optional(Text)),
      Field("lastHeartbeatMillis", Optional(I64)), Field("liveness", LIVENESS), Field("livenessAtMillis", I64),
      Field("severity", SEVERITY), Field("collection", COLLECTION_HEALTH), Field("metrics", Sequence(METRIC_VIEW)),
      Field("capacities", Sequence(CAPACITY_ENTRY)), Field("firingAlerts", U32), Field("pendingAlerts", U32),
      Field("inCurrentRoster", Bool), Field("idIsPlaceholder", Bool)])
  const ALERT_VIEW := Record([Field("id", Text), Field("ruleId", Text), Field("ruleName", Text),
      Field("description", Text), Field("host", Text), Field("metric", METRIC_KIND), Field("comparator", COMPARATOR),
      Field("threshold", F64), Field("phase", ALERT_PHASE), Field("severity", SEVERITY),
      Field("breachingSinceMillis", Optional(I64)), Field("firesAtMillis", Optional(I64)),
      Field("latestValue", Optional(F64)), Field("seriesLabel", Optional(Text)), Field("evidence", ALERT_EVIDENCE),
      Field("isRate", Bool), Field("invalidReason", Optional(Text))])
  const ALERT_TRANSITION := Record([Field("ruleId", Text), Field("ruleName", Text), Field("hostId", Text),
      Field("from", ALERT_PHASE), Field("to", ALERT_PHASE), Field("breachingSinceMillis", Optional(I64)),
      Field("atMillis", I64), Field("isFire", Bool), Field("isResolve", Bool)])
  const FLEET_COUNTS := Record([Field("hosts", U32), Field("alive", U32), Field("stale", U32), Field("down", U32),
      Field("unknown", U32), Field("firingAlerts", U32), Field("pendingAlerts", U32)])
  const POLL_FAILURE := Record([Field("kind", POLL_FAILURE_KIND), Field("source", POLL_FAILURE_SOURCE),
      Field("message", Text), Field("atMillis", I64), Field("isActionable", Bool), Field("isTransient", Bool)])
  const FRESHNESS_INPUTS := Record([Field("asOfMillis", Optional(I64)), Field("lastCleanAtMillis", Optional(I64)),
      Field("lastRosterAtMillis", Optional(I64)), Field("consecutiveFailures", U32),
      Field("lastFailure", Optional(POLL_FAILURE)), Field("polledThisSession", Bool), Field("toleranceSeconds", I64),
      Field("budgetSeconds", I64)])
  const FLEET_VIEW := Record([Field("backendName", Text), Field("asOfMillis", Optional(I64)),
      Field("freshness", FRESHNESS_INPUTS), Field("severity", SEVERITY), Field("hosts", Sequence(HOST_VIEW)),
      Field("alerts", Sequence(ALERT_VIEW)), Field("counts", FLEET_COUNTS),
      Field("warnings", Sequence(TUNING_WARNING))])
  const POLL_RESULT := Record([Field("view", FLEET_VIEW), Field("transitions", Sequence(ALERT_TRANSITION)),
      Field("advice", POLL_ADVICE), Field("skipped", Bool)])
}

module PollRead {
  import opened Wire
  import opened PlainEnums

  // What each `read` expects, in its order.

  const METRIC_KIND := Plain(["cpuUtilization", "memoryUtilization", "memoryUsage", "filesystemUtilization",
      "filesystemUsage", "networkIo", "loadAverage1m", "loadAverage5m", "loadAverage15m", "systemUptime",
      "temperature", "agentHeartbeat", "agentCollectionFailures"])
  const METRIC_UNIT := Plain(["ratio", "bytes", "seconds", "count", "load", "celsius"])
  const METRIC_AVAILABILITY := Plain(["present", "notReported", "unsupported", "unavailable"])
  const OS_FAMILY := Plain(["linux", "darwin", "windows", "other"])
  const LIVENESS := Plain(["alive", "stale", "down", "unknown"])
  const SEVERITY := Plain(["ok", "unknown", "warning", "critical"])
  const COMPARATOR := Plain(["greaterThan", "greaterThanOrEqual", "lessThan", "lessThanOrEqual"])
  const ALERT_PHASE := Plain(["ok", "pending", "firing", "noData"])
  const POLL_FAILURE_KIND := Plain(["unauthorized", "unreachable", "backend", "malformed"])
  const ALERT_EVIDENCE := Enum([Field("fresh", Record([])), Field("frozen", Record([Field("sinceMillis", I64)]))])
  const COLLECTION_HEALTH := Enum([Field("healthy", Record([])),
      Field("failing", Record([Field("added", F64), Field("overSeconds", I64)])), Field("unknown", Record([]))])
  const POLL_FAILURE_SOURCE := Enum([Field("roster", Record([])),
      Field("series", Record([Field("metric", METRIC_KIND)]))])
  const POLL_ADVICE := Enum([Field("poll", Record([Field("afterSeconds", I64)])),
      Field("retry", Record([Field("afterSeconds", I64), Field("consecutiveFailures", U32)])),
      Field("stop", Record([Field("reason", POLL_FAILURE_KIND), Field("message", Text)]))])
  const TUNING_WARNING := Enum([Field("spikeCanFire", Record([Field("ruleId", Text), Field("ruleName", Text)])),
      Field("counterThresholdIsRate", Record([Field("ruleId", Text), Field("metric", METRIC_KIND)])),
      Field("selectorMatchesNothing", Record([Field("ruleId", Text), Field("ruleName", Text)]))])
  const ATTRIBUTE := Record([Field("key", Text), Field("value", Text)])
  const METRIC_POINT := Record([Field("atMillis", I64), Field("value", F64)])
  const METRIC_VIEW := Record([Field("id", Text), Field("kind", METRIC_KIND), Field("unit", METRIC_UNIT),
      Field("displayName", Text), Field("label", Optional(Text)), Field("attributes", Sequence(ATTRIBUTE)),
      Field("latest", Optional(METRIC_POINT)), Field("points", Sequence(METRIC_POINT)),
      Field("availability", METRIC_AVAILABILITY), Field("isRate", Bool), Field("expectedStepSeconds", I64),
      Field("resetsMillis", Sequence(I64)), Field("fetchedAtMillis", Optional(I64))])
  const CAPACITY := Record([Field("kind", METRIC_KIND), Field("usedBytes", F64), Field("totalBytes", Optional(F64)),
      Field("freeBytes", Optional(F64)), Field("utilization", Optional(F64)), Field("atMillis", I64)])
  const CAPACITY_ENTRY := Record([Field("id", Text), Field("label", Optional(Text)), Field("capacity", CAPACITY)])
  const HOST_VIEW := Record([Field("id", Text), Field("os", OS_FAMILY), Field("agentVersion", Optional(Text)),
      Field("lastHeartbeatMillis", Optional(I64)), Field("liveness", LIVENESS), Field("livenessAtMillis", I64),
      Field("severity", SEVERITY), Field("collection", COLLECTION_HEALTH), Field("metrics", Sequence(METRIC_VIEW)),
      Field("capacities", Sequence(CAPACITY_ENTRY)), Field("firingAlerts", U32), Field("pendingAlerts", U32),
      Field("inCurrentRoster", Bool), Field("idIsPlaceholder", Bool)])
  const ALERT_VIEW := Record([Field("id", Text), Field("ruleId", Text), Field("ruleName", Text),
      Field("description", Text), Field("host", Text), Field("metric", METRIC_KIND), Field("comparator", COMPARATOR),
      Field("threshold", F64), Field("phase", ALERT_PHASE), Field("severity", SEVERITY),
      Field("breachingSinceMillis", Optional(I64)), Field("firesAtMillis", Optional(I64)),
      Field("latestValue", Optional(F64)), Field("seriesLabel", Optional(Text)), Field("evidence", ALERT_EVIDENCE),
      Field("isRate", Bool), Field("invalidReason", Optional(Text))])
  const ALERT_TRANSITION := Record([Field("ruleId", Text), Field("ruleName", Text), Field("hostId", Text),
      Field("from", ALERT_PHASE), Field("to", ALERT_PHASE), Field("breachingSinceMillis", Optional(I64)),
      Field("atMillis", I64), Field("isFire", Bool), Field("isResolve", Bool)])
  const FLEET_COUNTS := Record([Field("hosts", U32), Field("alive", U32), Field("stale", U32), Field("down", U32),
      Field("unknown", U32), Field("firingAlerts", U32), Field("pendingAlerts", U32)])
  const POLL_FAILURE := Record([Field("kind", POLL_FAILURE_KIND), Field("source", POLL_FAILURE_SOURCE),
      Field("message", Text), Field("atMillis", I64), Field("isActionable", Bool), Field("isTransient", Bool)])
  const FRESHNESS_INPUTS := Record([Field("asOfMillis", Optional(I64)), Field("lastCleanAtMillis", Optional(I64)),
      Field("lastRosterAtMillis", Optional(I64)), Field("consecutiveFailures", U32),
      Field("lastFailure", Optional(POLL_FAILURE)), Field("polledThisSession", Bool), Field("toleranceSeconds", I64),
      Field("budgetSeconds", I64)])
  const FLEET_VIEW := Record([Field("backendName", Text), Field("asOfMillis", Optional(I64)),
      Field("freshness", FRESHNESS_INPUTS), Field("severity", SEVERITY), Field("hosts", Sequence(HOST_VIEW)),
      Field("alerts", Sequence(ALERT_VIEW)), Field("counts", FLEET_COUNTS),
      Field("warnings", Sequence(TUNING_WARNING))])
  const POLL_RESULT := Record([Field("view", FLEET_VIEW), Field("transitions", Sequence(ALERT_TRANSITION)),
      Field("advice", POLL_ADVICE), Field("skipped", Bool)])
}

module PollWire {
  import opened Wire
  import opened WireLaws
  import PollWritten
  import PollRead

  lemma EnumOrdersAgree()
    ensures PollWritten.METRIC_KIND == PollRead.METRIC_KIND
    ensures PollWritten.METRIC_UNIT == PollRead.METRIC_UNIT
    ensures PollWritten.METRIC_AVAILABILITY == PollRead.METRIC_AVAILABILITY
    ensures PollWritten.OS_FAMILY == PollRead.OS_FAMILY
    ensures PollWritten.LIVENESS == PollRead.LIVENESS
    ensures PollWritten.SEVERITY == PollRead.SEVERITY
    ensures PollWritten.COMPARATOR == PollRead.COMPARATOR
    ensures PollWritten.ALERT_PHASE == PollRead.ALERT_PHASE
    ensures PollWritten.POLL_FAILURE_KIND == PollRead.POLL_FAILURE_KIND
    ensures PollWritten.ALERT_EVIDENCE == PollRead.ALERT_EVIDENCE
    ensures PollWritten.COLLECTION_HEALTH == PollRead.COLLECTION_HEALTH
    ensures PollWritten.POLL_FAILURE_SOURCE == PollRead.POLL_FAILURE_SOURCE
    ensures PollWritten.POLL_ADVICE == PollRead.POLL_ADVICE
    ensures PollWritten.TUNING_WARNING == PollRead.TUNING_WARNING
  {
  }

  lemma PartOrdersAgree()
    ensures PollWritten.ATTRIBUTE == PollRead.ATTRIBUTE
    ensures PollWritten.METRIC_POINT == PollRead.METRIC_POINT
    ensures PollWritten.METRIC_VIEW == PollRead.METRIC_VIEW
    ensures PollWritten.CAPACITY == PollRead.CAPACITY
    ensures PollWritten.CAPACITY_ENTRY == PollRead.CAPACITY_ENTRY
    ensures PollWritten.HOST_VIEW == PollRead.HOST_VIEW
    ensures PollWritten.ALERT_VIEW == PollRead.ALERT_VIEW
    ensures PollWritten.ALERT_TRANSITION == PollRead.ALERT_TRANSITION
    ensures PollWritten.FLEET_COUNTS == PollRead.FLEET_COUNTS
  {
    EnumOrdersAgree();
  }

  /** Every converter reads its fields in the order it writes them, and takes each tag for the case that
      writes it. */
  lemma OrdersAgree()
    ensures PollWritten.POLL_RESULT == PollRead.POLL_RESULT
  {
    EnumOrdersAgree();
    PartOrdersAgree();
  }

  /** What one side writes anywhere in a buffer, whatever comes after it, the other reads back, and stops
      exactly where the value ends. */
  lemma PollResultCrosses(v: Val, before: seq<Byte>, more: seq<Byte>)
    requires Fits(PollWritten.POLL_RESULT, v)
    ensures var bytes := Enc(PollWritten.POLL_RESULT, v);
      Dec(PollRead.POLL_RESULT, before + bytes + more, |before|) == Done(v, |before| + |bytes|)
  {
    hide Enc, Dec, Fits;
    OrdersAgree();
    var bytes := Enc(PollWritten.POLL_RESULT, v);
    assert At(before + bytes + more, |before|, bytes);
    WrittenIsRead(PollWritten.POLL_RESULT, v, before + bytes + more, |before|);
  }

  /** A whole buffer is lifted to the value lowered into it; with bytes left over, or with any missing, it
      is refused. */
  lemma PollResultIsLifted(v: Val, more: seq<Byte>, n: nat)
    requires Fits(PollWritten.POLL_RESULT, v) && n < |Enc(PollWritten.POLL_RESULT, v)|
    ensures var bytes := Enc(PollWritten.POLL_RESULT, v);
      Lift(PollRead.POLL_RESULT, bytes) == Done(v, |bytes|)
      && (more != [] ==> Lift(PollRead.POLL_RESULT, bytes + more) == Thrown(IncompleteData))
      && Lift(PollRead.POLL_RESULT, bytes[..n]) == Thrown(BufferOverflow)
  {
    hide Enc, Lift, Fits;
    OrdersAgree();
    LiftUndoesLower(PollWritten.POLL_RESULT, v, more, n);
  }
}
