/** What `init` does with the answers: the config they make, and where the key goes
    (agents/common/pessimal_agent_core/src/onboarding.rs). */
module Onboarding {
  import opened Texts
  import opened AgentConfig

  datatype Answers = Answers(
    preset: Preset, endpoint: string, protocol: Protocol, apiKey: Option<string>, dataset: Option<string>,
    environment: string, intervalSeconds: U64, temperatures: bool, temperatureSensors: seq<string>)

  const FRESH := Config(
    ExportConfig(Otlp, "", Grpc, DEFAULT_INTERVAL_SECONDS, DEFAULT_TIMEOUT_SECONDS, None, None, map[]),
    DEFAULT_RESOURCE, DEFAULT_COLLECTION)

  function NotBlank(value: Option<string>): Option<string> {
    if value.Some? && Trim(value.value) == "" then None else value
  }

  /** What was there before `init`: a config, or the defaults. */
  function Before(existing: Option<Config>): Config {
    if existing.Some? then existing.value else FRESH
  }

  /** The config that the answers make of the one before. */
  function Answered(a: Answers, before: Config): Config {
    var timeout := if before.export_.timeoutSeconds <= a.intervalSeconds then before.export_.timeoutSeconds
                   else a.intervalSeconds;
    Config(
      before.export_.(
        preset := a.preset, endpoint := Trim(a.endpoint), protocol := a.protocol,
        intervalSeconds := a.intervalSeconds, timeoutSeconds := timeout, apiKey := NotBlank(a.apiKey),
        dataset := FirstOf(NotBlank(a.dataset), before.export_.dataset)),
      before.resource.(environment := Trim(a.environment)),
      before.collection.(temperatures := a.temperatures, temperatureSensors := a.temperatureSensors))
  }

  /** `into_config` */
  function IntoConfig(a: Answers, existing: Option<Config>): Result<Config> {
    var config := Answered(a, Before(existing));
    if Validate(config).Some? then Err(Validate(config).value)
    else match HeadersOf(config.export_) case Err(problem) => Err(problem) case Ok(_) => Ok(config)
  }

  /** Valid on its own and with its credentials complete, as the agent demands at its start. */
  predicate IsReady(c: Config) {
    Validate(c) == None && HeadersOf(c.export_).Ok?
  }

  predicate IsGiven(value: Option<string>) {
    value.Some? && !IsAllWhite(value.value)
  }

  /** The answers make a config: an http or https endpoint, an interval, no `::` in the environment, and the
      preset's credentials. */
  predicate AreUsable(a: Answers, before: Config) {
    IsHttpUrl(Trim(a.endpoint)) && a.intervalSeconds > 0 && !HoldsTwoColons(Trim(a.environment))
    && HasCredentials(a.preset, IsGiven(a.apiKey), IsGiven(a.dataset) || before.export_.dataset.Some?)
  }

  /** Answers either make a config the agent would start with or name a problem; a short interval is never refused for the sake of a timeout that was not asked for. */
  lemma AnswersMakeAReadyConfig(a: Answers, existing: Option<Config>)
    requires existing.Some? ==> Validate(existing.value) == None
    ensures match IntoConfig(a, existing)
      case Err(problem) => problem != TimeoutOverInterval && problem != TimeoutZero
      case Ok(c) => IsReady(c)
    ensures IntoConfig(a, existing).Ok? <==> AreUsable(a, Before(existing))
  {
    hide Answered, Before, AreUsable, IsAllWhite, Validate, HeadersOf;
    BeforeIsSound(existing);
    AnsweredIsReadyIff(a, Before(existing));
    TimeoutIsNoProblem(a, Before(existing));
    CredentialsAreNoTimeout(Answered(a, Before(existing)).export_);
  }

  lemma CredentialsAreNoTimeout(e: ExportConfig)
    ensures HeadersOf(e).Err? ==> HeadersOf(e).problem != TimeoutOverInterval && HeadersOf(e).problem != TimeoutZero
  {
    hide Overlay;
  }

  lemma BeforeIsSound(existing: Option<Config>)
    requires existing.Some? ==> Validate(existing.value) == None
    ensures Before(existing).export_.timeoutSeconds > 0 && !IsAllWhite(Before(existing).resource.serviceName)
  {
    hide Validate;
    if existing.Some? {
      ValidIff(existing.value);
    } else {
      assert DEFAULT_SERVICE_NAME[0] == 'p';
    }
  }

  lemma TimeoutIsNoProblem(a: Answers, before: Config)
    requires before.export_.timeoutSeconds > 0
    ensures var problem := Validate(Answered(a, before));
      problem != Some(TimeoutOverInterval) && problem != Some(TimeoutZero)
  {
    hide Trim, StartsWith, Contains;
  }

  lemma AnsweredIsReadyIff(a: Answers, before: Config)
    requires before.export_.timeoutSeconds > 0 && !IsAllWhite(before.resource.serviceName)
    ensures IsReady(Answered(a, before)) <==> AreUsable(a, before)
  {
    hide Trim, IsAllWhite, IsHttpUrl, HoldsTwoColons, HasCredentials, Validate, HeadersOf;
    var c := Answered(a, before);
    ValidIff(c);
    HeadersIff(c.export_);
    if a.apiKey.Some? {
      BlankIsTrimmedAway(a.apiKey.value);
    }
    if a.dataset.Some? {
      BlankIsTrimmedAway(a.dataset.value);
    }
  }

  /** The config holds what was answered, its texts trimmed; a blank key is no key, and a blank data set leaves the
      one before. */
  ghost predicate HoldsAnswers(c: Config, a: Answers, before: Config) {
    && c.export_.preset == a.preset && c.export_.protocol == a.protocol
    && IsTrimmed(c.export_.endpoint, a.endpoint) && IsTrimmed(c.resource.environment, a.environment)
    && c.export_.intervalSeconds == a.intervalSeconds
    && c.collection.temperatures == a.temperatures && c.collection.temperatureSensors == a.temperatureSensors
    && (a.apiKey.Some? && !IsAllWhite(a.apiKey.value) ==> c.export_.apiKey == a.apiKey)
    && (a.apiKey.None? || IsAllWhite(a.apiKey.value) ==> c.export_.apiKey == None)
    && (a.dataset.Some? && !IsAllWhite(a.dataset.value) ==> c.export_.dataset == a.dataset)
    && (a.dataset.None? || IsAllWhite(a.dataset.value) ==> c.export_.dataset == before.export_.dataset)
  }

  /** What is not asked is as it was, but for a timeout that would be longer than the interval answered. */
  ghost predicate KeepsTheRest(c: Config, a: Answers, before: Config) {
    && c.export_.headers == before.export_.headers && c.resource.serviceName == before.resource.serviceName
    && c.resource.hostName == before.resource.hostName && c.resource.attributes == before.resource.attributes
    && c.collection.filesystems == before.collection.filesystems
    && c.collection.perInterfaceNetwork == before.collection.perInterfaceNetwork
    && c.export_.timeoutSeconds <= before.export_.timeoutSeconds && c.export_.timeoutSeconds <= a.intervalSeconds
    && (c.export_.timeoutSeconds == before.export_.timeoutSeconds || c.export_.timeoutSeconds == a.intervalSeconds)
  }

  /** The config that `init` makes is what was answered, and otherwise what was there. */
  lemma ConfigHoldsTheAnswers(a: Answers, existing: Option<Config>)
    requires IntoConfig(a, existing).Ok?
    ensures var c := IntoConfig(a, existing).value;
      HoldsAnswers(c, a, Before(existing)) && KeepsTheRest(c, a, Before(existing))
  {
    hide Trim, IsTrimmed, IsAllWhite, Validate, HeadersOf;
    TrimIsTrimmed(a.endpoint);
    TrimIsTrimmed(a.environment);
    if a.apiKey.Some? {
      BlankIsTrimmedAway(a.apiKey.value);
    }
    if a.dataset.Some? {
      BlankIsTrimmedAway(a.dataset.value);
    }
  }

  /** The answers that `init` offers as defaults: what the config there already says. */
  function AnswersOf(c: Config): Answers {
    Answers(c.export_.preset, c.export_.endpoint, c.export_.protocol, c.export_.apiKey, c.export_.dataset,
            c.resource.environment, c.export_.intervalSeconds, c.collection.temperatures, c.collection.temperatureSensors)
  }

  /** Answering with what is there already changes nothing, exactly when what is there has no blanks around it
      and no blank key. */
  lemma SameAnswersChangeNothing(c: Config)
    requires IsReady(c)
    ensures IntoConfig(AnswersOf(c), Some(c)) == Ok(c)
      <==> Trim(c.export_.endpoint) == c.export_.endpoint && Trim(c.resource.environment) == c.resource.environment
           && NotBlank(c.export_.apiKey) == c.export_.apiKey
  {
    hide Trim, HeadersOf, StartsWith, Contains;
    assert c.export_.timeoutSeconds <= c.export_.intervalSeconds;
    assert FirstOf(NotBlank(c.export_.dataset), c.export_.dataset) == c.export_.dataset;
  }

  // ----- where things go

  /** A path by its components; an absolute one begins with "/". */
  type Path = seq<string>

  const SYSTEMD_ENVIRONMENT_FILE: Path := ["/", "etc", "pessimal", "pessimal.env"]

  datatype KeyPlacement = InConfigFile | InEnvironmentFile(path: Path)

  /** `KeyPlacement::decide` */
  function DecidePlacement(configPath: Path, isMacOs: bool): KeyPlacement {
    if !isMacOs && ["/", "etc"] <= configPath then InEnvironmentFile(SYSTEMD_ENVIRONMENT_FILE) else InConfigFile
  }
}
