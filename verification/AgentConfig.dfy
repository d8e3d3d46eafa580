/** The agent's configuration: presets and their headers, validation, what a TOML document means, and
    the environment's overrides (agents/common/pessimal_agent_core/src/config.rs, preset.rs). */
module AgentConfig {
  import opened Texts
  import opened TomlLines
  import opened TomlDocument

  datatype Problem =
    | Malformed
    | EndpointMissing | EndpointScheme | IntervalZero | TimeoutZero | TimeoutOverInterval
    | ServiceNameEmpty | EnvironmentSeparator
    | KeyHasNoHeader | KeyMissing | DatasetMissing
    | UnknownName | NotANumber

  datatype Result<+T> = Ok(value: T) | Err(problem: Problem)

  datatype Preset = Otlp | Signoz | Clickstack | Honeycomb

  datatype Protocol = Grpc | HttpProtobuf

  type U64 = n: nat | n < 0x1_0000_0000_0000_0000

  datatype ExportConfig = ExportConfig(
    preset: Preset, endpoint: string, protocol: Protocol, intervalSeconds: U64, timeoutSeconds: U64,
    apiKey: Option<string>, dataset: Option<string>, headers: map<string, string>)

  datatype ResourceConfig = ResourceConfig(
    serviceName: string, environment: string, hostName: Option<string>, attributes: map<string, string>)

  datatype CollectionConfig = CollectionConfig(
    filesystems: seq<string>, perInterfaceNetwork: bool, temperatures: bool, temperatureSensors: seq<string>)

  datatype Config = Config(export_: ExportConfig, resource: ResourceConfig, collection: CollectionConfig)

  const DEFAULT_INTERVAL_SECONDS: U64 := 30
  const DEFAULT_TIMEOUT_SECONDS: U64 := 10
  const DEFAULT_SERVICE_NAME := "pessimal-agent"
  const DEFAULT_ENVIRONMENT := "default"
  const DEFAULT_RESOURCE := ResourceConfig(DEFAULT_SERVICE_NAME, DEFAULT_ENVIRONMENT, None, map[])
  const DEFAULT_COLLECTION := CollectionConfig(["/"], false, false, [])

  // ----- presets and protocols

  function WireName(preset: Preset): string {
    match preset
    case Otlp => "otlp"
    case Signoz => "signoz"
    case Clickstack => "clickstack"
    case Honeycomb => "honeycomb"
  }

  function ParsePreset(raw: string): Option<Preset> {
    match LowerAscii(raw)
    case "otlp" => Some(Otlp)
    case "signoz" => Some(Signoz)
    case "clickstack" => Some(Clickstack)
    case "hyperdx" => Some(Clickstack)
    case "honeycomb" => Some(Honeycomb)
    case _ => None
  }

  function ProtocolName(protocol: Protocol): string {
    if protocol.Grpc? then "grpc" else "http/protobuf"
  }

  function ParseProtocol(raw: string): Option<Protocol> {
    match LowerAscii(raw)
    case "grpc" => Some(Grpc)
    case "http" => Some(HttpProtobuf)
    case "http/protobuf" => Some(HttpProtobuf)
    case "http_protobuf" => Some(HttpProtobuf)
    case _ => None
  }

  /** Spelled in capitals, small letters or both. */
  ghost predicate SpellsAnyCase(raw: string, word: string) {
    |raw| == |word| && forall i :: 0 <= i < |raw| ==>
      raw[i] == word[i] || ('a' <= word[i] <= 'z' && raw[i] as int + 32 == word[i] as int)
  }

  lemma LowerIff(raw: string, word: string)
    requires forall i :: 0 <= i < |word| ==> !('A' <= word[i] <= 'Z')
    ensures LowerAscii(raw) == word <==> SpellsAnyCase(raw, word)
  {
    assert |LowerAscii(raw)| == |raw|;
    if SpellsAnyCase(raw, word) {
      forall i | 0 <= i < |raw| ensures LowerAscii(raw)[i] == word[i] {}
    }
    if LowerAscii(raw) == word {
      forall i | 0 <= i < |raw|
        ensures raw[i] == word[i] || ('a' <= word[i] <= 'z' && raw[i] as int + 32 == word[i] as int)
      {
        assert LowerAscii(raw)[i] == word[i];
      }
    }
  }

  /** The names a file or a variable may use for the presets and the protocols, and no others. */
  lemma NamesAreThese(raw: string)
    ensures ParsePreset(raw) == Some(Otlp) <==> SpellsAnyCase(raw, "otlp")
    ensures ParsePreset(raw) == Some(Signoz) <==> SpellsAnyCase(raw, "signoz")
    ensures ParsePreset(raw) == Some(Clickstack) <==> SpellsAnyCase(raw, "clickstack") || SpellsAnyCase(raw, "hyperdx")
    ensures ParsePreset(raw) == Some(Honeycomb) <==> SpellsAnyCase(raw, "honeycomb")
    ensures ParseProtocol(raw) == Some(Grpc) <==> SpellsAnyCase(raw, "grpc")
    ensures ParseProtocol(raw) == Some(HttpProtobuf) <==>
      SpellsAnyCase(raw, "http") || SpellsAnyCase(raw, "http/protobuf") || SpellsAnyCase(raw, "http_protobuf")
  {
    hide LowerAscii, SpellsAnyCase;
    LowerIff(raw, "otlp");
    LowerIff(raw, "signoz");
    LowerIff(raw, "clickstack");
    LowerIff(raw, "hyperdx");
    LowerIff(raw, "honeycomb");
    LowerIff(raw, "grpc");
    LowerIff(raw, "http");
    LowerIff(raw, "http/protobuf");
    LowerIff(raw, "http_protobuf");
  }

  lemma NamesReadBack(preset: Preset, protocol: Protocol)
    ensures ParsePreset(WireName(preset)) == Some(preset)
    ensures ParseProtocol(ProtocolName(protocol)) == Some(protocol)
  {
    assert LowerAscii(WireName(preset)) == WireName(preset);
    assert LowerAscii(ProtocolName(protocol)) == ProtocolName(protocol);
  }

  // ----- headers

  /** `headers`: what a preset sends of its credentials, or why it cannot. */
  function PresetHeaders(preset: Preset, apiKey: Option<string>, dataset: Option<string>): Result<map<string, string>> {
    match preset
    case Otlp => if apiKey.Some? then Err(KeyHasNoHeader) else Ok(map[])
    case Signoz => if apiKey.Some? then Ok(map["signoz-access-token" := apiKey.value]) else Ok(map[])
    case Clickstack => if apiKey.None? then Err(KeyMissing) else Ok(map["authorization" := apiKey.value])
    case Honeycomb =>
      if apiKey.None? then Err(KeyMissing)
      else if dataset.None? then Err(DatasetMissing)
      else Ok(map["x-honeycomb-team" := apiKey.value, "x-honeycomb-dataset" := dataset.value])
  }

  /** The preset's headers with the user's set over them, in the order of `names`. */
  function Overlay(base: map<string, string>, headers: map<string, string>, names: seq<string>): map<string, string>
    requires forall n :: n in names ==> n in headers
  {
    if names == [] then base
    else
      var last := names[|names| - 1];
      Overlay(base, headers, names[..|names| - 1])[LowerAscii(last) := headers[last]]
  }

  function HeadersOf(e: ExportConfig): Result<map<string, string>> {
    match PresetHeaders(e.preset, e.apiKey, e.dataset)
    case Err(problem) => Err(problem)
    case Ok(base) =>
      AscendingListsTheSet(e.headers.Keys);
      Ok(Overlay(base, e.headers, Ascending(e.headers.Keys)))
  }

  /** `resolved_headers` */
  method ResolvedHeaders(e: ExportConfig) returns (r: Result<map<string, string>>)
    ensures r == HeadersOf(e)
  {
    r := PresetHeaders(e.preset, e.apiKey, e.dataset);
    if r.Err? { return; }
    var headers := r.value;
    AscendingListsTheSet(e.headers.Keys);
    var names := Ascending(e.headers.Keys);
    var i := 0;
    while i < |names|
      invariant 0 <= i <= |names|
      invariant headers == Overlay(r.value, e.headers, names[..i])
    {
      assert names[..i + 1][..|names[..i + 1]| - 1] == names[..i];
      headers := headers[LowerAscii(names[i]) := e.headers[names[i]]];
      i := i + 1;
    }
    assert names[..i] == names;
    r := Ok(headers);
  }

  /** The user's spelling of a header that wins: the last in order. */
  ghost predicate IsWinningSpelling(headers: map<string, string>, name: string, spelling: string) {
    spelling in headers && LowerAscii(spelling) == name
    && forall n :: n in headers && LowerAscii(n) == name ==> AtMost(n, spelling)
  }

  ghost predicate NoneSpells(names: seq<string>, name: string) {
    forall k :: 0 <= k < |names| ==> LowerAscii(names[k]) != name
  }

  lemma {:induction false} OverlayLeavesTheRest(base: map<string, string>, headers: map<string, string>, names: seq<string>, name: string)
    requires forall n :: n in names ==> n in headers
    requires NoneSpells(names, name)
    ensures name in Overlay(base, headers, names) <==> name in base
    ensures name in base ==> Overlay(base, headers, names)[name] == base[name]
  {
    hide LowerAscii;
    if names != [] {
      OverlayLeavesTheRest(base, headers, names[..|names| - 1], name);
    }
  }

  lemma {:induction false} OverlayKeepsTheLast(base: map<string, string>, headers: map<string, string>, names: seq<string>, name: string, k: nat)
    requires forall n :: n in names ==> n in headers
    requires k < |names| && LowerAscii(names[k]) == name && NoneSpells(names[k + 1..], name)
    ensures name in Overlay(base, headers, names) && Overlay(base, headers, names)[name] == headers[names[k]]
  {
    hide LowerAscii;
    var last := |names| - 1;
    if k < last {
      assert names[k + 1..][last - k - 1] == names[last];
      assert names[..last][k + 1..] == names[k + 1..][..last - k - 1];
      OverlayKeepsTheLast(base, headers, names[..last], name, k);
    }
  }

  /** The user's headers win over the preset's, whatever the case they are spelled in. */
  lemma UserHeadersWin(e: ExportConfig, name: string, spelling: string)
    requires HeadersOf(e).Ok? && IsWinningSpelling(e.headers, name, spelling)
    ensures name in HeadersOf(e).value && HeadersOf(e).value[name] == e.headers[spelling]
  {
    hide LowerAscii, PresetHeaders;
    var names := Ascending(e.headers.Keys);
    AscendingListsTheSet(e.headers.Keys);
    var k :| 0 <= k < |names| && names[k] == spelling;
    var later := names[k + 1..];
    forall j | 0 <= j < |later| ensures LowerAscii(later[j]) != name {
      var n := later[j];
      assert n == names[k + 1 + j] && n in names && Less(spelling, n);
      LessIsAsymmetric(spelling, n);
    }
    OverlayKeepsTheLast(PresetHeaders(e.preset, e.apiKey, e.dataset).value, e.headers, names, name, k);
  }

  /** A header the user does not set is the preset's. */
  lemma PresetHeadersRemain(e: ExportConfig, name: string)
    requires HeadersOf(e).Ok? && forall n :: n in e.headers ==> LowerAscii(n) != name
    ensures var base := PresetHeaders(e.preset, e.apiKey, e.dataset).value;
      (name in HeadersOf(e).value <==> name in base) && (name in base ==> HeadersOf(e).value[name] == base[name])
  {
    hide LowerAscii, PresetHeaders;
    var names := Ascending(e.headers.Keys);
    AscendingListsTheSet(e.headers.Keys);
    forall k | 0 <= k < |names| ensures LowerAscii(names[k]) != name {
      assert names[k] in names;
    }
    OverlayLeavesTheRest(PresetHeaders(e.preset, e.apiKey, e.dataset).value, e.headers, names, name);
  }

  /** Where each preset's key and data set are sent, unless the user sets that header. */
  lemma CredentialsAreSent(e: ExportConfig, name: string)
    requires HeadersOf(e).Ok? && forall n :: n in e.headers ==> LowerAscii(n) != name
    ensures name in HeadersOf(e).value <==>
      (e.preset.Signoz? && name == "signoz-access-token" && e.apiKey.Some?)
      || (e.preset.Clickstack? && name == "authorization")
      || (e.preset.Honeycomb? && name in ["x-honeycomb-team", "x-honeycomb-dataset"])
    ensures name in HeadersOf(e).value ==>
      Some(HeadersOf(e).value[name]) == if name == "x-honeycomb-dataset" then e.dataset else e.apiKey
  {
    hide HeadersOf, LowerAscii;
    PresetHeadersRemain(e, name);
    NoSlipInTheNames();
    assert PresetHeaders(e.preset, e.apiKey, e.dataset).Ok? by { HeadersNeedThePresets(e); }
  }

  lemma NoSlipInTheNames()
    ensures "x-honeycomb-dataset" != "x-honeycomb-team" && "x-honeycomb-dataset" != "signoz-access-token"
    ensures "x-honeycomb-dataset" != "authorization"
  {
    assert "x-honeycomb-dataset"[0] != "signoz-access-token"[0] && "x-honeycomb-dataset"[0] != "authorization"[0];
  }

  lemma HeadersNeedThePresets(e: ExportConfig)
    requires HeadersOf(e).Ok?
    ensures PresetHeaders(e.preset, e.apiKey, e.dataset).Ok?
  {
    hide Overlay;
  }

  // ----- validation

  /** `validate`: the first problem, or none. */
  function Validate(c: Config): Option<Problem> {
    if Trim(c.export_.endpoint) == "" then Some(EndpointMissing)
    else if !StartsWith(c.export_.endpoint, "http://") && !StartsWith(c.export_.endpoint, "https://") then Some(EndpointScheme)
    else if c.export_.intervalSeconds == 0 then Some(IntervalZero)
    else if c.export_.timeoutSeconds == 0 then Some(TimeoutZero)
    else if c.export_.timeoutSeconds > c.export_.intervalSeconds then Some(TimeoutOverInterval)
    else if Trim(c.resource.serviceName) == "" then Some(ServiceNameEmpty)
    else if Contains(c.resource.environment, "::") then Some(EnvironmentSeparator)
    else None
  }

  predicate HoldsTwoColons(text: string) {
    exists i :: 0 <= i < |text| - 1 && text[i] == ':' && text[i + 1] == ':'
  }

  predicate IsHttpUrl(endpoint: string) {
    StartsWith(endpoint, "http://") || StartsWith(endpoint, "https://")
  }

  lemma ColonsAreContained(text: string)
    ensures Contains(text, "::") <==> HoldsTwoColons(text)
  {
    if Contains(text, "::") {
      var i :| 0 <= i <= |text| && StartsWith(text[i..], "::");
      assert text[i..][..2] == "::" && text[i] == text[i..][..2][0] && text[i + 1] == text[i..][..2][1];
    }
    if i :| 0 <= i < |text| - 1 && text[i] == ':' && text[i + 1] == ':' {
      assert text[i..][..2] == "::";
      assert StartsWith(text[i..], "::");
    }
  }

  lemma UrlIsNotBlank(endpoint: string)
    requires IsHttpUrl(endpoint)
    ensures !IsAllWhite(endpoint)
  {
    assert endpoint[0] == 'h' by {
      if StartsWith(endpoint, "http://") {
        assert endpoint[..7][0] == 'h';
      } else {
        assert endpoint[..8][0] == 'h';
      }
    }
  }

  /** A config is valid exactly with an http or https endpoint, a timeout of at least one second and no longer than
      the interval, a service name that is not blank and no `::` in the environment. */
  lemma ValidIff(c: Config)
    ensures Validate(c) == None <==>
      IsHttpUrl(c.export_.endpoint) && 0 < c.export_.timeoutSeconds <= c.export_.intervalSeconds
      && !IsAllWhite(c.resource.serviceName) && !HoldsTwoColons(c.resource.environment)
  {
    hide Trim, IsAllWhite, StartsWith, Contains, HoldsTwoColons;
    BlankIsTrimmedAway(c.export_.endpoint);
    BlankIsTrimmedAway(c.resource.serviceName);
    ColonsAreContained(c.resource.environment);
    if IsHttpUrl(c.export_.endpoint) {
      UrlIsNotBlank(c.export_.endpoint);
    }
  }

  /** Whether a preset's credentials are complete: OTLP has no header to send a key in, ClickStack cannot do without
      one, and Honeycomb needs a data set besides. */
  predicate HasCredentials(preset: Preset, hasKey: bool, hasDataset: bool) {
    (preset.Otlp? ==> !hasKey) && (preset.Clickstack? ==> hasKey) && (preset.Honeycomb? ==> hasKey && hasDataset)
  }

  lemma HeadersIff(e: ExportConfig)
    ensures HeadersOf(e).Ok? <==> HasCredentials(e.preset, e.apiKey.Some?, e.dataset.Some?)
  {
    hide Overlay;
  }

  // ----- what a document means

  const EXPORT := ["export"]
  const EXPORT_HEADERS := ["export", "headers"]
  const RESOURCE := ["resource"]
  const RESOURCE_ATTRIBUTES := ["resource", "attributes"]
  const COLLECTION := ["collection"]

  const EXPORT_KEYS := {"preset", "endpoint", "protocol", "interval_seconds", "timeout_seconds", "api_key", "dataset"}
  const RESOURCE_KEYS := {"service_name", "environment", "host_name"}
  const COLLECTION_KEYS := {"filesystems", "per_interface_network", "temperatures", "temperature_sensors"}

  function TableAt(doc: Document, path: seq<string>): Table {
    if path in doc then doc[path] else map[]
  }

  function StrField(t: Table, key: string, missing: Option<string>): Option<string> {
    if key !in t then missing else if t[key].Str? then Some(t[key].text) else None
  }

  function OptionalField(t: Table, key: string): Option<Option<string>> {
    if key !in t then Some(None) else if t[key].Str? then Some(Some(t[key].text)) else None
  }

  function U64Field(t: Table, key: string, missing: U64): Option<U64> {
    if key !in t then Some(missing)
    else if t[key].Int? && t[key].n < 0x1_0000_0000_0000_0000 then Some(t[key].n)
    else None
  }

  function BoolField(t: Table, key: string): Option<bool> {
    if key !in t then Some(false) else if t[key].Bool? then Some(t[key].b) else None
  }

  function ListField(t: Table, key: string): Option<seq<string>> {
    if key !in t then Some([]) else if t[key].List? then Some(t[key].items) else None
  }

  function Strings(t: Table): Option<map<string, string>> {
    if forall k :: k in t ==> t[k].Str? then Some(map k | k in t :: t[k].text) else None
  }

  function DecodeExport(t: Table, headers: Table): Option<ExportConfig> {
    var presetName := StrField(t, "preset", Some("otlp"));
    var endpoint := StrField(t, "endpoint", None);
    var protocolName := StrField(t, "protocol", Some("grpc"));
    var interval := U64Field(t, "interval_seconds", DEFAULT_INTERVAL_SECONDS);
    var timeout := U64Field(t, "timeout_seconds", DEFAULT_TIMEOUT_SECONDS);
    var apiKey := OptionalField(t, "api_key");
    var dataset := OptionalField(t, "dataset");
    var named := Strings(headers);
    if !(t.Keys <= EXPORT_KEYS) || presetName.None? || endpoint.None? || protocolName.None? || interval.None?
       || timeout.None? || apiKey.None? || dataset.None? || named.None? then None
    else
      match (ParsePreset(presetName.value), ParseProtocol(protocolName.value))
      case (Some(preset), Some(protocol)) =>
        Some(ExportConfig(preset, endpoint.value, protocol, interval.value, timeout.value, apiKey.value,
                          dataset.value, named.value))
      case _ => None
  }

  function DecodeResource(t: Table, attributes: Table): Option<ResourceConfig> {
    var serviceName := StrField(t, "service_name", Some(DEFAULT_SERVICE_NAME));
    var environment := StrField(t, "environment", Some(DEFAULT_ENVIRONMENT));
    var hostName := OptionalField(t, "host_name");
    var named := Strings(attributes);
    if !(t.Keys <= RESOURCE_KEYS) || serviceName.None? || environment.None? || hostName.None? || named.None? then None
    else Some(ResourceConfig(serviceName.value, environment.value, hostName.value, named.value))
  }

  function DecodeCollection(t: Table): Option<CollectionConfig> {
    var filesystems := ListField(t, "filesystems");
    var perInterface := BoolField(t, "per_interface_network");
    var temperatures := BoolField(t, "temperatures");
    var sensors := ListField(t, "temperature_sensors");
    if !(t.Keys <= COLLECTION_KEYS) || filesystems.None? || perInterface.None? || temperatures.None? || sensors.None?
    then None
    else Some(CollectionConfig(filesystems.value, perInterface.value, temperatures.value, sensors.value))
  }

  /** The configuration a document describes. Unknown tables and keys are refused; a missing table is its
      default, which for `[collection]` is not the same as an empty one. */
  function Decode(doc: Document): Option<Config> {
    if !(doc.Keys <= {[], EXPORT, EXPORT_HEADERS, RESOURCE, RESOURCE_ATTRIBUTES, COLLECTION})
       || TableAt(doc, []) != map[] || EXPORT !in doc then None
    else
      var e := DecodeExport(doc[EXPORT], TableAt(doc, EXPORT_HEADERS));
      var r := DecodeResource(TableAt(doc, RESOURCE), TableAt(doc, RESOURCE_ATTRIBUTES));
      var c := if COLLECTION in doc then DecodeCollection(doc[COLLECTION]) else Some(DEFAULT_COLLECTION);
      if e.None? || r.None? || c.None? then None else Some(Config(e.value, r.value, c.value))
  }

  /** `from_toml` */
  function FromToml(text: string): Result<Config> {
    match ReadDocument(text)
    case None => Err(Malformed)
    case Some(doc) =>
      match Decode(doc)
      case None => Err(Malformed)
      case Some(c) => if Validate(c).Some? then Err(Validate(c).value) else Ok(c)
  }

  /** What each key of the file is for, and what stands in for one that is missing. */
  lemma KeysAreThese(e: string, i: U64, t: U64, key: string, dataset: string, headers: map<string, string>,
                     service: string, environment: string, host: string, attributes: map<string, string>,
                     filesystems: seq<string>, perInterface: bool, temperatures: bool, sensors: seq<string>)
    ensures DecodeExport(
        map["preset" := Str("signoz"), "endpoint" := Str(e), "protocol" := Str("http"), "interval_seconds" := Int(i),
            "timeout_seconds" := Int(t), "api_key" := Str(key), "dataset" := Str(dataset)],
        map n | n in headers :: Str(headers[n]))
      == Some(ExportConfig(Signoz, e, HttpProtobuf, i, t, Some(key), Some(dataset), headers))
    ensures DecodeResource(
        map["service_name" := Str(service), "environment" := Str(environment), "host_name" := Str(host)],
        map n | n in attributes :: Str(attributes[n]))
      == Some(ResourceConfig(service, environment, Some(host), attributes))
    ensures DecodeCollection(
        map["filesystems" := List(filesystems), "per_interface_network" := Bool(perInterface),
            "temperatures" := Bool(temperatures), "temperature_sensors" := List(sensors)])
      == Some(CollectionConfig(filesystems, perInterface, temperatures, sensors))
  {
    hide LowerAscii;
    SpelledAsIs();
    StringsAreBack(headers);
    StringsAreBack(attributes);
  }

  lemma SpelledAsIs()
    ensures ParsePreset("signoz") == Some(Signoz) && ParseProtocol("http") == Some(HttpProtobuf)
    ensures ParsePreset("otlp") == Some(Otlp) && ParseProtocol("grpc") == Some(Grpc)
  {
    NamesAreThese("signoz");
    NamesAreThese("http");
    NamesReadBack(Otlp, Grpc);
  }

  lemma StringsAreBack(m: map<string, string>)
    ensures Strings(map n | n in m :: Str(m[n])) == Some(m)
  {
    var t: Table := map n | n in m :: Str(m[n]);
    var back := Strings(t);
    assert forall k :: k in t ==> t[k].Str?;
    assert back.Some? && back.value == m;
  }

  /** A file of nothing but an endpoint; and an empty `[collection]`, which is not a missing one. */
  lemma MissingKeysAreDefaults(e: string)
    ensures Decode(map[["export"] := map["endpoint" := Str(e)]])
      == Some(Config(ExportConfig(Otlp, e, Grpc, 30, 10, None, None, map[]),
                     ResourceConfig("pessimal-agent", "default", None, map[]),
                     CollectionConfig(["/"], false, false, [])))
    ensures DecodeCollection(map[]) == Some(CollectionConfig([], false, false, []))
    ensures DecodeExport(map[], map[]) == None
  {
    hide LowerAscii;
    SpelledAsIs();
    assert EXPORT == ["export"];
  }

  /** Whatever is not one of the tables and keys is refused. */
  lemma UnknownKeysAreRefused(doc: Document, path: seq<string>, key: string)
    requires path in doc && key in doc[path] && Decode(doc).Some?
    ensures path in [["export"], ["export", "headers"], ["resource"], ["resource", "attributes"], ["collection"]]
    ensures path == ["export"] ==>
      key in ["preset", "endpoint", "protocol", "interval_seconds", "timeout_seconds", "api_key", "dataset"]
    ensures path == ["resource"] ==> key in ["service_name", "environment", "host_name"]
    ensures path == ["collection"] ==>
      key in ["filesystems", "per_interface_network", "temperatures", "temperature_sensors"]
  {
    hide ParsePreset, ParseProtocol, Strings;
    assert path in doc.Keys && key in doc[path].Keys;
  }

  // ----- the environment's overrides

  type Environment = map<string, string>

  const ENV_PREFIX := "PESSIMAL_"

  /** A variable that is set and not empty. */
  function Get(env: Environment, suffix: string): Option<string> {
    var name := ENV_PREFIX + suffix;
    if name in env && env[name] != "" then Some(env[name]) else None
  }

  /** `str::parse::<u64>` */
  function ParseU64(text: string): Option<U64> {
    var digits := if StartsWith(text, "+") then text[1..] else text;
    if IsDecimal(digits) && DecimalValue(digits) < 0x1_0000_0000_0000_0000 then Some(DecimalValue(digits)) else None
  }

  function FirstOf(a: Option<string>, b: Option<string>): Option<string> {
    if a.Some? then a else b
  }

  function Or(value: Option<string>, otherwise: string): string {
    if value.Some? then value.value else otherwise
  }

  /** The export settings with every override that is set. */
  function ExportWith(e: ExportConfig, env: Environment): Result<ExportConfig> {
    var preset := match Get(env, "PRESET") case None => Some(e.preset) case Some(v) => ParsePreset(v);
    var protocol := match Get(env, "PROTOCOL") case None => Some(e.protocol) case Some(v) => ParseProtocol(v);
    var interval := match Get(env, "INTERVAL_SECONDS") case None => Some(e.intervalSeconds) case Some(v) => ParseU64(v);
    if preset.None? || protocol.None? then Err(UnknownName)
    else if interval.None? then Err(NotANumber)
    else
      Ok(e.(endpoint := Or(Get(env, "ENDPOINT"), e.endpoint),
            preset := preset.value,
            protocol := protocol.value,
            apiKey := FirstOf(Get(env, "API_KEY"), e.apiKey),
            dataset := FirstOf(Get(env, "DATASET"), e.dataset),
            intervalSeconds := interval.value))
  }

  function ResourceWith(r: ResourceConfig, env: Environment): ResourceConfig {
    r.(serviceName := Or(Get(env, "SERVICE_NAME"), r.serviceName),
       environment := Or(Get(env, "ENVIRONMENT"), r.environment),
       hostName := FirstOf(Get(env, "HOST_NAME"), r.hostName))
  }

  /** `apply_env`: every override, then validation, then the credentials. */
  function ApplyEnv(c: Config, env: Environment): Result<Config> {
    match ExportWith(c.export_, env)
    case Err(problem) => Err(problem)
    case Ok(e) =>
      var result := Config(e, ResourceWith(c.resource, env), c.collection);
      if Validate(result).Some? then Err(Validate(result).value)
      else match HeadersOf(result.export_) case Err(problem) => Err(problem) case Ok(_) => Ok(result)
  }

  predicate IsSet(env: Environment, name: string) {
    name in env && env[name] != ""
  }

  /** The setting is the variable's value where that is set, and as it was where it is not. */
  ghost predicate Overrides(env: Environment, name: string, was: Option<string>, now: Option<string>) {
    now == if IsSet(env, name) then Some(env[name]) else was
  }

  /** A number as the environment writes it: decimal digits, with a plus sign or without. */
  ghost predicate Denotes(text: string, n: nat) {
    exists digits :: IsDecimal(digits) && DecimalValue(digits) == n && (text == digits || text == "+" + digits)
  }

  lemma ParsedNumberIsDenoted(text: string)
    ensures ParseU64(text).Some? ==> Denotes(text, ParseU64(text).value)
    ensures forall n: U64 :: Denotes(text, n) ==> ParseU64(text) == Some(n)
  {
    var digits := if StartsWith(text, "+") then text[1..] else text;
    if StartsWith(text, "+") {
      assert text == "+" + digits;
    }
    forall n: U64 | Denotes(text, n) ensures ParseU64(text) == Some(n) {
      var d :| IsDecimal(d) && DecimalValue(d) == n && (text == d || text == "+" + d);
      assert IsDigit(d[0]);
      if text == d {
        assert text[..1] == [d[0]];
      } else {
        assert text[..1] == "+" && text[1..] == d;
      }
    }
  }

  /** What a start makes of the environment: each variable that is set is its own setting, and nothing else changes. */
  lemma OverridesAreAsSet(c: Config, env: Environment)
    requires ApplyEnv(c, env).Ok?
    ensures var r := ApplyEnv(c, env).value; var was, now := c.export_, r.export_;
      && Overrides(env, "PESSIMAL_ENDPOINT", Some(was.endpoint), Some(now.endpoint))
      && Overrides(env, "PESSIMAL_API_KEY", was.apiKey, now.apiKey)
      && Overrides(env, "PESSIMAL_DATASET", was.dataset, now.dataset)
      && (if IsSet(env, "PESSIMAL_PRESET") then ParsePreset(env["PESSIMAL_PRESET"]) == Some(now.preset)
          else now.preset == was.preset)
      && (if IsSet(env, "PESSIMAL_PROTOCOL") then ParseProtocol(env["PESSIMAL_PROTOCOL"]) == Some(now.protocol)
          else now.protocol == was.protocol)
      && (if IsSet(env, "PESSIMAL_INTERVAL_SECONDS") then Denotes(env["PESSIMAL_INTERVAL_SECONDS"], now.intervalSeconds)
          else now.intervalSeconds == was.intervalSeconds)
      && now.timeoutSeconds == was.timeoutSeconds && now.headers == was.headers
      && Overrides(env, "PESSIMAL_SERVICE_NAME", Some(c.resource.serviceName), Some(r.resource.serviceName))
      && Overrides(env, "PESSIMAL_ENVIRONMENT", Some(c.resource.environment), Some(r.resource.environment))
      && Overrides(env, "PESSIMAL_HOST_NAME", c.resource.hostName, r.resource.hostName)
      && r.resource.attributes == c.resource.attributes && r.collection == c.collection
    ensures Validate(ApplyEnv(c, env).value) == None && HeadersOf(ApplyEnv(c, env).value.export_).Ok?
  {
    hide Validate, HeadersOf, ParsePreset, ParseProtocol, ParseU64, Denotes;
    NamesOfVariables();
    if IsSet(env, "PESSIMAL_INTERVAL_SECONDS") {
      ParsedNumberIsDenoted(env["PESSIMAL_INTERVAL_SECONDS"]);
    }
  }

  lemma NamesOfVariables()
    ensures ENV_PREFIX + "ENDPOINT" == "PESSIMAL_ENDPOINT" && ENV_PREFIX + "PRESET" == "PESSIMAL_PRESET"
    ensures ENV_PREFIX + "PROTOCOL" == "PESSIMAL_PROTOCOL" && ENV_PREFIX + "API_KEY" == "PESSIMAL_API_KEY"
    ensures ENV_PREFIX + "DATASET" == "PESSIMAL_DATASET"
    ensures ENV_PREFIX + "INTERVAL_SECONDS" == "PESSIMAL_INTERVAL_SECONDS"
    ensures ENV_PREFIX + "SERVICE_NAME" == "PESSIMAL_SERVICE_NAME" && ENV_PREFIX + "ENVIRONMENT" == "PESSIMAL_ENVIRONMENT"
    ensures ENV_PREFIX + "HOST_NAME" == "PESSIMAL_HOST_NAME"
  {
  }

  /** The configuration as the agent holds it while it starts. */
  class LoadedConfig {
    var config: Config

    constructor (c: Config)
      ensures config == c
    {
      config := c;
    }

    /** The export fields in turn; the first value that does not parse stops it. */
    method OverrideExport(env: Environment) returns (problem: Option<Problem>)
      modifies this
      ensures match ExportWith(old(config.export_), env)
        case Ok(e) => problem == None && config == old(config).(export_ := e)
        case Err(p) => problem == Some(p)
    {
      hide Get, ParsePreset, ParseProtocol, ParseU64;
      var endpoint := Get(env, "ENDPOINT");
      if endpoint.Some? {
        config := config.(export_ := config.export_.(endpoint := endpoint.value));
      }
      ghost var e := old(config.export_).(endpoint := Or(endpoint, old(config.export_.endpoint)));
      assert config == old(config).(export_ := e);
      var preset := Get(env, "PRESET");
      if preset.Some? {
        var parsed := ParsePreset(preset.value);
        if parsed.None? { return Some(UnknownName); }
        config := config.(export_ := config.export_.(preset := parsed.value));
        e := e.(preset := parsed.value);
      }
      assert config == old(config).(export_ := e);
      var protocol := Get(env, "PROTOCOL");
      if protocol.Some? {
        var parsed := ParseProtocol(protocol.value);
        if parsed.None? { return Some(UnknownName); }
        config := config.(export_ := config.export_.(protocol := parsed.value));
        e := e.(protocol := parsed.value);
      }
      assert config == old(config).(export_ := e);
      var apiKey := Get(env, "API_KEY");
      if apiKey.Some? {
        config := config.(export_ := config.export_.(apiKey := apiKey));
      }
      e := e.(apiKey := FirstOf(apiKey, e.apiKey));
      assert config == old(config).(export_ := e);
      var dataset := Get(env, "DATASET");
      if dataset.Some? {
        config := config.(export_ := config.export_.(dataset := dataset));
      }
      e := e.(dataset := FirstOf(dataset, e.dataset));
      assert config == old(config).(export_ := e);
      var interval := Get(env, "INTERVAL_SECONDS");
      if interval.Some? {
        var parsed := ParseU64(interval.value);
        if parsed.None? { return Some(NotANumber); }
        config := config.(export_ := config.export_.(intervalSeconds := parsed.value));
        e := e.(intervalSeconds := parsed.value);
      }
      assert config == old(config).(export_ := e);
      problem := None;
    }

    method OverrideResource(env: Environment)
      modifies this
      ensures config == old(config).(resource := ResourceWith(old(config.resource), env))
    {
      hide Get;
      var serviceName := Get(env, "SERVICE_NAME");
      if serviceName.Some? {
        config := config.(resource := config.resource.(serviceName := serviceName.value));
      }
      var environment := Get(env, "ENVIRONMENT");
      if environment.Some? {
        config := config.(resource := config.resource.(environment := environment.value));
      }
      var hostName := Get(env, "HOST_NAME");
      if hostName.Some? {
        config := config.(resource := config.resource.(hostName := hostName));
      }
    }

    /** `apply_env` */
    method Override(env: Environment) returns (problem: Option<Problem>)
      modifies this
      ensures match ApplyEnv(old(config), env)
        case Ok(c) => problem == None && config == c
        case Err(p) => problem == Some(p)
    {
      hide Validate, HeadersOf, ExportWith, ResourceWith;
      problem := OverrideExport(env);
      if problem.Some? { return; }
      OverrideResource(env);
      problem := Validate(config);
      if problem.Some? { return; }
      var headers := ResolvedHeaders(config.export_);
      problem := if headers.Err? then Some(headers.problem) else None;
    }
  }
}
