/** The release protocol as a state machine: what GitHub holds, the effects the client's requests can
    have on it, and the guard under which the client sends each one (scripts/release-github.py). The
    client itself is in ReleaseClient.dfy; what holds over every run is in ReleaseSafety.dfy. */
module ReleaseProtocol {
  import opened Texts
  import opened Sums
  import opened ReleaseBuild

  // ----- versions

  datatype Version = Version(major: nat, minor: nat, patch: nat)

  /** `^v([0-9]+)\.([0-9]+)\.([0-9]+)$` */
  function VersionOf(tag: string): Option<Version> {
    if !StartsWith(tag, "v") then None
    else
      var parts := SplitAtDots(tag[1..]);
      if |parts| == 3 && IsDecimal(parts[0]) && IsDecimal(parts[1]) && IsDecimal(parts[2])
      then Some(Version(DecimalValue(parts[0]), DecimalValue(parts[1]), DecimalValue(parts[2])))
      else None
  }

  /** Tuple order: `a > b` of Python. */
  predicate Newer(a: Version, b: Version) {
    a.major > b.major
    || (a.major == b.major && (a.minor > b.minor || (a.minor == b.minor && a.patch > b.patch)))
  }

  // ----- the store

  datatype AssetState = Open | Uploaded

  datatype Asset = Asset(release: nat, name: string, state: AssetState, content: Bytes)

  datatype Phase = Draft | Prerelease | Promoted

  /** What the run that published a release had checked, and what it had been given. */
  datatype Attestation = Attestation(build: Build, warrant: Warrant)

  /** A release. `attested` is bookkeeping of the model: GitHub stores no such field and the client never
      reads it. */
  datatype Release = Release(tag: string, phase: Phase, attested: Option<Attestation>)

  /** What `scripts/release-manifest.sh` prints for one version. */
  datatype Manifest = Manifest(all: seq<string>, agents: seq<string>, app: string)

  /** A file of the Homebrew tap; all but its text is bookkeeping of the model. */
  datatype TapFile = TapFile(text: string, release: nat, template: string, manifest: Manifest)

  datatype Store = Store(
    tags: map<string, string>,
    releases: map<nat, Release>,
    assets: map<nat, Asset>,
    nextId: nat,
    latest: Option<nat>,
    tap: map<string, TapFile>)

  function AssetsOf(s: Store, release: nat): map<nat, Asset> {
    map id | id in s.assets && s.assets[id].release == release :: s.assets[id]
  }

  /** Everything but the assets of that name on that release. */
  function OtherAssets(s: Store, release: nat, name: string): map<nat, Asset> {
    map id | id in s.assets && !(s.assets[id].release == release && s.assets[id].name == name) :: s.assets[id]
  }

  predicate NoneNamed(s: Store, release: nat, name: string) {
    forall id :: id in s.assets ==> !(s.assets[id].release == release && s.assets[id].name == name)
  }

  function NamesOf(held: map<nat, Asset>): set<string> {
    set id | id in held :: held[id].name
  }

  predicate NamesDiffer(held: map<nat, Asset>) {
    forall i, j :: i in held && j in held && held[i].name == held[j].name ==> i == j
  }

  /** One asset is what this build calls for: a payload's bytes hash to its producer's hash and have
      its size; `SHA256SUMS` is `sums_text` of those hashes. */
  predicate IsAsBuilt(a: Asset, sha: Bytes -> string, build: Build) {
    a.state == Uploaded
    && if a.name == SUMS then a.content == SumsText(Digests(build))
       else a.name in build && |a.content| == build[a.name].size && sha(a.content) == build[a.name].sha256
  }

  /** The release's assets are exactly the build's: every name, each once, each as built. */
  ghost predicate IsExact(held: map<nat, Asset>, sha: Bytes -> string, build: Build) {
    NamesOf(held) == build.Keys + {SUMS} && NamesDiffer(held)
    && (forall id :: id in held ==> IsAsBuilt(held[id], sha, build))
  }

  // ----- what a request can do to the store

  /** An effect on the store. `Record` is an upload GitHub kept, finished or not, with whatever bytes
      it kept. */
  datatype Action =
    | Create(tag: string)
    | Remove(asset: nat)
    | Record(release: nat, name: string, state: AssetState, content: Bytes)
    | Flip(release: nat, tag: string, build: Build, warrant: Warrant)
    | Promote(release: nat, tag: string)
    | WriteTap(path: string, release: nat, template: string, manifest: Manifest, text: string)

  function Next(s: Store, a: Action): Store {
    match a
    case Create(tag) =>
      s.(releases := s.releases[s.nextId := Release(tag, Draft, None)], nextId := s.nextId + 1)
    case Remove(asset) =>
      s.(assets := s.assets - {asset})
    case Record(release, name, state, content) =>
      s.(assets := s.assets[s.nextId := Asset(release, name, state, content)], nextId := s.nextId + 1)
    case Flip(release, _, build, warrant) =>
      if release !in s.releases then s
      else
        var flipped := s.releases[release].(phase := Prerelease, attested := Some(Attestation(build, warrant)));
        s.(releases := s.releases[release := flipped])
    case Promote(release, _) =>
      if release !in s.releases then s
      else s.(releases := s.releases[release := s.releases[release].(phase := Promoted)], latest := Some(release))
    case WriteTap(path, release, template, manifest, text) =>
      s.(tap := s.tap[path := TapFile(text, release, template, manifest)])
  }

  predicate IsDraft(s: Store, release: nat) {
    release in s.releases && s.releases[release].phase == Draft
  }

  /** The release at `/releases/latest`, if any, is not of a newer version than this one. */
  predicate NothingNewerIsLatest(s: Store, version: Option<Version>) {
    s.latest.Some? && s.latest.value in s.releases ==>
      match (VersionOf(s.releases[s.latest.value].tag), version)
      case (Some(current), Some(next)) => !Newer(current, next)
      case _ => true
  }

  /** The tag exists and, where a commit is expected, points at it. */
  predicate IsFor(s: Store, tag: string, commit: Option<string>) {
    tag in s.tags && (commit.Some? ==> s.tags[tag] == commit.value)
  }

  predicate NonePublished(s: Store, tag: string) {
    forall r :: r in s.releases && s.releases[r].tag == tag ==> s.releases[r].phase == Draft
  }

  /** When the client may send the request that has this effect. */
  ghost predicate Guard(s: Store, sha: Bytes -> string, a: Action) {
    match a
    case Create(tag) =>
      // Only a tag that exists is drafted, and only one that has no release of any kind.
      tag in s.tags && VersionOf(tag).Some? && forall r :: r in s.releases ==> s.releases[r].tag != tag
    case Remove(asset) =>
      asset in s.assets && IsDraft(s, s.assets[asset].release)
    case Record(release, name, _, _) =>
      IsDraft(s, release) && NoneNamed(s, release, name)
    case Flip(release, tag, build, warrant) =>
      // Only a proved build, of the commit it was made from, and only once the draft holds exactly that.
      IsDraft(s, release) && s.releases[release].tag == tag && IsExact(AssetsOf(s, release), sha, build)
      && IsWarranted(warrant, sha, build) && AllBare(Digests(build)) && IsFor(s, tag, warrant.commit)
      && VersionOf(tag).Some? && NonePublished(s, tag)
    case Promote(release, tag) =>
      release in s.releases && s.releases[release].tag == tag && s.releases[release].phase == Prerelease
      && NothingNewerIsLatest(s, VersionOf(tag))
    case WriteTap(path, release, template, manifest, text) =>
      // Only what the published digests of the latest release call for.
      s.latest == Some(release) && release in s.releases && s.releases[release].attested.Some?
      && RenderFormula(template, s.releases[release].tag, manifest,
                       Digests(s.releases[release].attested.value.build)) == Some(text)
  }

  // ----- render_formula

  const REPO := "Lightless-Labs/pessimal"

  function Upper(c: char): char {
    if 'a' <= c <= 'z' then c - 'a' + 'A' else c
  }

  /** `triple.upper().replace("-", "_")` */
  function PlaceholderPart(triple: string): string {
    seq(|triple|, i requires 0 <= i < |triple| => if triple[i] == '-' then '_' else Upper(triple[i]))
  }

  /** `text.replace(pattern, value)`: every occurrence, leftmost first, never overlapping. */
  function Replace(text: string, pattern: string, value: string): string
    requires pattern != ""
    decreases |text|
  {
    if text == "" then ""
    else if StartsWith(text, pattern) then value + Replace(text[|pattern|..], pattern, value)
    else [text[0]] + Replace(text[1..], pattern, value)
  }

  predicate IsPlaceholderChar(c: char) {
    'A' <= c <= 'Z' || '0' <= c <= '9' || c == '_'
  }

  /** `@[A-Z0-9_]+@` occurs somewhere in `text`. */
  predicate HasPlaceholder(text: string) {
    exists i, j :: 0 <= i < j < |text| && i + 1 < j && text[i] == '@' && text[j] == '@'
      && forall k :: i < k < j ==> IsPlaceholderChar(text[k])
  }

  /** A dictionary that remembers the order its keys were first set in. */
  type Values = seq<(string, string)>

  function Set(values: Values, key: string, value: string): Values {
    if values == [] then [(key, value)]
    else if values[0].0 == key then [(key, value)] + values[1..]
    else [values[0]] + Set(values[1..], key, value)
  }

  function AgentValues(agents: seq<string>, version: string, digests: map<string, string>, values: Values): Option<Values> {
    if agents == [] then Some(values)
    else
      var name, prefix, suffix := agents[0], "pessimal-agent-" + version + "-", ".tar.gz";
      if !StartsWith(name, prefix) || !EndsWith(name, suffix) || name !in digests then None
      else
        var triple := if |prefix| + |suffix| <= |name| then name[|prefix|..|name| - |suffix|] else "";
        var key := "@SHA256_" + PlaceholderPart(triple) + "@";
        AgentValues(agents[1..], version, digests, Set(values, key, digests[name]))
  }

  function Fill(text: string, values: Values): string
    decreases |values|
  {
    if values == [] then text
    else if values[0].0 == "" then Fill(text, values[1..])
    else Fill(Replace(text, values[0].0, values[0].1), values[1..])
  }

  /** `render_formula`, over the digests read from the release's `SHA256SUMS`. */
  function RenderFormula(template: string, tag: string, manifest: Manifest, digests: map<string, string>): Option<string> {
    if tag == "" then None
    else
      var version := tag[1..];
      match AgentValues(manifest.agents, version, digests,
                        [("@VERSION@", version), ("@TAG@", tag), ("@REPO@", REPO)])
      case None => None
      case Some(agentValues) =>
        var values := if manifest.app in digests then Set(agentValues, "@SHA256_MACOS_APP@", digests[manifest.app])
                      else agentValues;
        var text := Fill(template, values);
        if HasPlaceholder(text) then None else Some(text)
  }
}
