/** `init` as a whole: it writes the key and the config, and a start afterwards gives back the config
    that was answered (agents/host/pessimal_agent_host/src/init.rs). */
module Init {
  import opened Texts
  import opened Lines
  import opened AgentConfig
  import opened ConfigText
  import opened ConfigWriter
  import opened EnvironmentFile
  import opened Onboarding

  type Files = map<Path, string>

  class Disk {
    var files: Files

    constructor (initial: Files)
      ensures files == initial
    {
      files := initial;
    }
  }

  function TextAt(files: Files, path: Path): string {
    if path in files then files[path] else ""
  }

  // ----- what the steps do to the files

  /** `read_existing` */
  function ReadExisting(files: Files, path: Path): Option<Config> {
    if path in files && FromToml(files[path]).Ok? then Some(FromToml(files[path]).value) else None
  }

  function WithoutKey(c: Config): Config {
    c.(export_ := c.export_.(apiKey := None))
  }

  /** The config file's content: without the key when the key goes elsewhere. */
  function OnDisk(c: Config, placement: KeyPlacement): Config {
    if placement.InConfigFile? then c else WithoutKey(c)
  }

  function WithEnvironmentFile(files: Files, c: Config, placement: KeyPlacement): Files {
    if placement.InEnvironmentFile? && c.export_.apiKey.Some?
    then files[placement.path := MergedText(TextAt(files, placement.path), c.export_.apiKey.value)]
    else files
  }

  /** Where the last dot of a name is, or its length; a leading dot does not count. */
  function StemLength(name: string): (n: nat)
    ensures n <= |name|
    ensures n < |name| ==> name[n] == '.' && '.' !in name[n + 1..]
  {
    if '.' !in name then |name|
    else if name[|name| - 1] == '.' then if |name| == 1 then 1 else |name| - 1
    else
      var n := StemLength(name[..|name| - 1]);
      if n == |name| - 1 then |name| else n
  }

  /** `with_extension("toml.bak")` */
  function BackupOf(path: Path): Path
    requires path != []
  {
    var name := path[|path| - 1];
    path[..|path| - 1] + [name[..StemLength(name)] + ".toml.bak"]
  }

  function WithConfigFile(files: Files, path: Path, text: string): Files
    requires path != []
  {
    (if path in files then files[BackupOf(path) := files[path]] else files)[path := text]
  }

  /** The whole run: the files it leaves, and its result. */
  function InitOutcome(files: Files, path: Path, isMacOs: bool, a: Answers, notes: Notes): (Files, Result<Config>)
    requires path != []
  {
    match IntoConfig(a, ReadExisting(files, path))
    case Err(problem) => (files, Err(problem))
    case Ok(c) =>
      var placement := DecidePlacement(path, isMacOs);
      var keyed := WithEnvironmentFile(files, c, placement);
      if FitsTomlIntegers(c) then (WithConfigFile(keyed, path, ConfigFile(OnDisk(c, placement), notes)), Ok(c))
      else (keyed, Err(Malformed))
  }

  // ----- the steps

  /** `write_environment_file` */
  method WriteEnvironmentFile(disk: Disk, path: Path, key: string)
    modifies disk
    ensures disk.files == old(disk.files)[path := MergedText(TextAt(old(disk.files), path), key)]
  {
    var merged := MergeEnvironmentFile(TextAt(disk.files, path), key);
    disk.files := disk.files[path := merged];
  }

  /** `write_config`: what is about to be written is read first, and is refused only for an integer that
      TOML cannot hold. */
  method WriteConfig(disk: Disk, path: Path, c: Config, notes: Notes) returns (problem: Option<Problem>)
    requires path != [] && AreComments(notes) && Validate(c) == None
    modifies disk
    ensures problem == if FitsTomlIntegers(c) then None else Some(Malformed)
    ensures problem == None ==> disk.files == WithConfigFile(old(disk.files), path, ConfigFile(c, notes))
    ensures problem != None ==> disk.files == old(disk.files)
  {
    hide FromToml, ConfigFile, Validate, BackupOf, AreComments;
    var rendered := RenderToml(c, notes);
    ConfigFileReadsBack(c, notes);
    var parsed := FromToml(rendered);
    if parsed.Err? { return Some(parsed.problem); }
    if parsed.value != c { return Some(Malformed); }
    if path in disk.files {
      disk.files := disk.files[BackupOf(path) := disk.files[path]];
    }
    disk.files := disk.files[path := rendered];
    problem := None;
  }

  /** `run`, between the answers and the test export. */
  method RunInit(disk: Disk, path: Path, isMacOs: bool, a: Answers, notes: Notes) returns (r: Result<Config>)
    requires path != [] && AreComments(notes)
    modifies disk
    ensures (disk.files, r) == InitOutcome(old(disk.files), path, isMacOs, a, notes)
  {
    hide FromToml, ConfigFile, MergedText, BackupOf, AreComments, HeadersOf;
    var existing := ReadExisting(disk.files, path);
    r := IntoConfig(a, existing);
    if r.Err? { return; }
    var placement := DecidePlacement(path, isMacOs);
    var onDisk := r.value;
    if placement.InEnvironmentFile? {
      onDisk := WithoutKey(r.value);
      if r.value.export_.apiKey.Some? {
        WriteEnvironmentFile(disk, placement.path, r.value.export_.apiKey.value);
      }
    }
    assert Validate(onDisk) == None by { KeyIsNotValidated(r.value, None); }
    var problem := WriteConfig(disk, path, onDisk, notes);
    if problem.Some? {
      r := Err(problem.value);
    }
  }

  /** A start with a config file and an environment: the file read, the environment applied. */
  method Start(disk: Disk, path: Path, env: Environment) returns (r: Result<Config>)
    ensures r == Started(disk.files, path, env)
  {
    hide FromToml, ApplyEnv;
    if path !in disk.files { return Err(Malformed); }
    r := FromToml(disk.files[path]);
    if r.Err? { return; }
    var loaded := new LoadedConfig(r.value);
    var problem := loaded.Override(env);
    r := if problem.Some? then Err(problem.value) else Ok(loaded.config);
  }

  function Started(files: Files, path: Path, env: Environment): Result<Config> {
    if path !in files then Err(Malformed)
    else match FromToml(files[path]) case Err(problem) => Err(problem) case Ok(c) => ApplyEnv(c, env)
  }

  /** What systemd hands the agent: the environment file's variables, where the unit names that file. */
  function EnvironmentAt(files: Files, placement: KeyPlacement): Environment {
    if placement.InEnvironmentFile? then ReadEnvironment(TextAt(files, placement.path)) else map[]
  }

  // ----- a start after init

  lemma KeyIsNotValidated(c: Config, key: Option<string>)
    ensures Validate(c.(export_ := c.export_.(apiKey := key))) == Validate(c)
  {
    hide Trim, StartsWith, Contains;
  }

  lemma BackupIsAnotherFile(path: Path)
    requires path != []
    ensures BackupOf(path) != path && BackupOf(path) != SYSTEMD_ENVIRONMENT_FILE
  {
    var name := path[|path| - 1];
    var n := StemLength(name);
    var backup := BackupOf(path)[|path| - 1];
    assert backup == name[..n] + ".toml.bak";
    assert backup[|backup| - 1] == 'k' && "pessimal.env"[11] == 'v';
    if n < |name| {
      assert backup[n + 1..][4] == '.';
      assert backup[n + 1..] != name[n + 1..];
    }
  }

  /** No variable but the key's overrides the config. */
  ghost predicate OverridesOnlyTheKey(env: Environment) {
    forall n :: n in env && env[n] != "" && StartsWith(n, ENV_PREFIX) ==> n == NAME
  }

  lemma OtherSuffixIsUnset(env: Environment, suffix: string)
    requires OverridesOnlyTheKey(env) && suffix != "API_KEY"
    ensures Get(env, suffix) == None
  {
    var name := ENV_PREFIX + suffix;
    assert name[|ENV_PREFIX|..] == suffix && NAME[|ENV_PREFIX|..] == "API_KEY";
    assert StartsWith(name, ENV_PREFIX) by { assert name[..|ENV_PREFIX|] == ENV_PREFIX; }
  }

  function KeyIn(env: Environment): Option<string> {
    if NAME in env && env[NAME] != "" then Some(env[NAME]) else None
  }

  lemma KeyIsGot(env: Environment)
    ensures Get(env, "API_KEY") == KeyIn(env)
  {
    assert ENV_PREFIX + "API_KEY" == NAME;
  }

  /** With nothing but the key overridden, the start yields the config as it is but for the key. */
  lemma OnlyTheKeyIsApplied(c: Config, env: Environment)
    requires OverridesOnlyTheKey(env) && Validate(c) == None
    ensures var keyed := c.(export_ := c.export_.(apiKey := FirstOf(KeyIn(env), c.export_.apiKey)));
      ApplyEnv(c, env) == match HeadersOf(keyed.export_) case Err(problem) => Err(problem) case Ok(_) => Ok(keyed)
  {
    hide Validate, HeadersOf, Get, KeyIn, OverridesOnlyTheKey;
    KeyIsGot(env);
    OtherSuffixIsUnset(env, "PRESET");
    OtherSuffixIsUnset(env, "PROTOCOL");
    OtherSuffixIsUnset(env, "INTERVAL_SECONDS");
    OtherSuffixIsUnset(env, "ENDPOINT");
    OtherSuffixIsUnset(env, "DATASET");
    OtherSuffixIsUnset(env, "SERVICE_NAME");
    OtherSuffixIsUnset(env, "ENVIRONMENT");
    OtherSuffixIsUnset(env, "HOST_NAME");
    var key := FirstOf(KeyIn(env), c.export_.apiKey);
    KeyIsNotValidated(c, key);
  }

  /** Whether the key that was answered comes back, told from the environment file before `init` ran: with
      a key, there was no key line or the last line read as the key's is one that `init` replaces; without
      a key, the file held none. */
  ghost predicate KeyComesBack(files: Files, placement: KeyPlacement, key: Option<string>) {
    placement.InConfigFile?
    || var existing := TextAt(files, placement.path);
       if key.Some? then !HasKeyLine(LinesOf(existing)) || KeyLineIsLast(LinesOf(existing), key.value)
       else KeyIn(ReadEnvironment(existing)) == None
  }

  /** Only a key that goes to the environment file has to stand in a line as itself. */
  predicate KeyIsPlainWhereNeeded(placement: KeyPlacement, c: Config) {
    placement.InEnvironmentFile? && c.export_.apiKey.Some? ==> IsPlainKey(c.export_.apiKey.value)
  }

  lemma FilesAfter(files: Files, path: Path, isMacOs: bool, a: Answers, notes: Notes)
    requires path != [] && path != SYSTEMD_ENVIRONMENT_FILE && InitOutcome(files, path, isMacOs, a, notes).1.Ok?
    ensures var (after, r) := InitOutcome(files, path, isMacOs, a, notes); var placement := DecidePlacement(path, isMacOs);
      path in after && after[path] == ConfigFile(OnDisk(r.value, placement), notes)
      && IsReady(r.value) && FitsTomlIntegers(r.value)
      && (placement.InEnvironmentFile? ==>
            TextAt(after, placement.path) == TextAt(WithEnvironmentFile(files, r.value, placement), placement.path))
  {
    hide FromToml, ConfigFile, MergedText, BackupOf, Validate, HeadersOf;
    BackupIsAnotherFile(path);
  }

  /** The config on disk without its key is as valid, and with the key put back it is the config. */
  lemma KeyPutBack(c: Config, env: Environment, placement: KeyPlacement)
    requires IsReady(c) && OverridesOnlyTheKey(env) && (placement.InConfigFile? ==> env == map[])
    ensures Validate(OnDisk(c, placement)) == None
    ensures ApplyEnv(OnDisk(c, placement), env) == Ok(c) <==> placement.InConfigFile? || KeyIn(env) == c.export_.apiKey
  {
    hide Validate, HeadersOf, OverridesOnlyTheKey, ApplyEnv;
    var d := OnDisk(c, placement);
    KeyIsNotValidated(c, None);
    OnlyTheKeyIsApplied(d, env);
  }

  /** The config is what was answered and, where nothing was asked, what the file said before. */
  ghost predicate IsAsAnswered(c: Config, a: Answers, files: Files, path: Path) {
    HoldsAnswers(c, a, Before(ReadExisting(files, path))) && KeepsTheRest(c, a, Before(ReadExisting(files, path)))
  }

  /** Init, then start: the agent runs with exactly the config that was answered, field by field, if and only
      if the key comes back from where it was put. */
  lemma StartGivesBackTheAnswers(files: Files, path: Path, isMacOs: bool, a: Answers, notes: Notes)
    requires path != [] && path != SYSTEMD_ENVIRONMENT_FILE && AreComments(notes)
    requires InitOutcome(files, path, isMacOs, a, notes).1.Ok?
    requires KeyIsPlainWhereNeeded(DecidePlacement(path, isMacOs), InitOutcome(files, path, isMacOs, a, notes).1.value)
    requires OverridesOnlyTheKey(EnvironmentAt(InitOutcome(files, path, isMacOs, a, notes).0, DecidePlacement(path, isMacOs)))
    ensures var (after, r) := InitOutcome(files, path, isMacOs, a, notes); var placement := DecidePlacement(path, isMacOs);
      (Started(after, path, EnvironmentAt(after, placement)) == r
       <==> KeyComesBack(files, placement, r.value.export_.apiKey))
      && IsAsAnswered(r.value, a, files, path)
  {
    hide InitOutcome, FromToml, ConfigFile, MergedText, IsReady, ApplyEnv, ReadEnvironment, HasKeyLine, KeyLineIsLast,
         OverridesOnlyTheKey, AreComments, LinesOf, IsPlainKey, Validate, HoldsAnswers, KeepsTheRest, IntoConfig;
    OutcomeIsTheAnswers(files, path, isMacOs, a, notes);
    ConfigHoldsTheAnswers(a, ReadExisting(files, path));
    var (after, r) := InitOutcome(files, path, isMacOs, a, notes);
    var placement := DecidePlacement(path, isMacOs);
    var c, env := r.value, EnvironmentAt(after, placement);
    FilesAfter(files, path, isMacOs, a, notes);
    KeyPutBack(c, env, placement);
    ConfigFileReadsBack(OnDisk(c, placement), notes);
    if placement.InEnvironmentFile? && c.export_.apiKey.Some? {
      var key := c.export_.apiKey.value;
      KeyIsRead(TextAt(files, placement.path), key);
      assert key != "" by { PlainKeyIsThere(key); }
    }
  }

  lemma OutcomeIsTheAnswers(files: Files, path: Path, isMacOs: bool, a: Answers, notes: Notes)
    requires path != [] && InitOutcome(files, path, isMacOs, a, notes).1.Ok?
    ensures InitOutcome(files, path, isMacOs, a, notes).1 == IntoConfig(a, ReadExisting(files, path))
  {
    hide ReadExisting, IntoConfig, ConfigFile, MergedText, BackupOf;
  }

  lemma PlainKeyIsThere(key: string)
    requires IsPlainKey(key)
    ensures key != ""
  {
  }

  lemma FreshFileIsRead(key: string)
    requires IsPlainKey(key)
    ensures ReadEnvironment(MergedText("", key)) == map[NAME := key]
  {
    hide IsKeyLine, Assigned, SplitLines, Unlines, IsPlainKey;
    var line := ASSIGNMENT + key;
    assert !HasKeyLine([]) && Merged([], key) == [] + [line] == [line];
    assert MergedText("", key) == Unlines([line]);
    PlainKeyIsOnOneLine(key);
    MergedHoldsNoFeed("", key);
    WrittenLinesAreCut([line], Feed);
    KeyLineIsRead(key);
    assert SplitLines(Unlines([line]), Feed) == [line];
    assert [line][..0] == [] && ReadAll([]) == map[];
    assert ReadAll([line]) == ReadAll([line][..0])[NAME := key];
  }

  /** On a machine that has no environment file yet, what was answered always comes back. */
  lemma FreshInstallStartsAsAnswered(files: Files, path: Path, isMacOs: bool, a: Answers, notes: Notes)
    requires path != [] && path != SYSTEMD_ENVIRONMENT_FILE && AreComments(notes)
    requires SYSTEMD_ENVIRONMENT_FILE !in files && InitOutcome(files, path, isMacOs, a, notes).1.Ok?
    requires KeyIsPlainWhereNeeded(DecidePlacement(path, isMacOs), InitOutcome(files, path, isMacOs, a, notes).1.value)
    ensures var (after, r) := InitOutcome(files, path, isMacOs, a, notes);
      Started(after, path, EnvironmentAt(after, DecidePlacement(path, isMacOs))) == r
      && IsAsAnswered(r.value, a, files, path)
  {
    hide InitOutcome, IsAsAnswered, FromToml, ConfigFile, MergedText, IsReady, ApplyEnv, ReadEnvironment, HasKeyLine, KeyLineIsLast,
         AreComments, IsPlainKey, Validate, Started;
    var (after, r) := InitOutcome(files, path, isMacOs, a, notes);
    var placement, key := DecidePlacement(path, isMacOs), r.value.export_.apiKey;
    FilesAfter(files, path, isMacOs, a, notes);
    if placement.InEnvironmentFile? {
      NothingIsRead();
      if key.Some? {
        FreshFileIsRead(key.value);
      }
    }
    StartGivesBackTheAnswers(files, path, isMacOs, a, notes);
  }

  lemma NothingIsRead()
    ensures ReadEnvironment("") == map[] && !HasKeyLine(LinesOf(""))
  {
    EmptyHasNoLines(Feed);
  }

  // ----- what init leaves on the disk

  /** The config goes under `/etc` of a machine that is not a Mac. */
  predicate IsUnderEtc(path: Path, isMacOs: bool) {
    !isMacOs && |path| >= 2 && path[0] == "/" && path[1] == "etc"
  }

  lemma EtcTakesTheEnvironmentFile(path: Path, isMacOs: bool)
    ensures DecidePlacement(path, isMacOs) ==
      if IsUnderEtc(path, isMacOs) then InEnvironmentFile(["/", "etc", "pessimal", "pessimal.env"]) else InConfigFile
  {
    if ["/", "etc"] <= path {
      assert path[0] == ["/", "etc"][0] && path[1] == ["/", "etc"][1];
    } else if |path| >= 2 {
      assert path[..2] == [path[0], path[1]];
    }
  }

  /** A key is written to one place: under `/etc` the config file says everything but the key, which goes to the
      environment file; anywhere else the config file says everything. */
  lemma KeyIsInOnePlace(files: Files, path: Path, isMacOs: bool, a: Answers, notes: Notes)
    requires path != [] && path != SYSTEMD_ENVIRONMENT_FILE && AreComments(notes)
    requires InitOutcome(files, path, isMacOs, a, notes).1.Ok?
    ensures var (after, r) := InitOutcome(files, path, isMacOs, a, notes); var c := r.value;
      path in after
      && if IsUnderEtc(path, isMacOs)
         then FromToml(after[path]) == Ok(c.(export_ := c.export_.(apiKey := None)))
              && TextAt(after, SYSTEMD_ENVIRONMENT_FILE) ==
                   if c.export_.apiKey.Some? then MergedText(TextAt(files, SYSTEMD_ENVIRONMENT_FILE), c.export_.apiKey.value)
                   else TextAt(files, SYSTEMD_ENVIRONMENT_FILE)
         else FromToml(after[path]) == Ok(c)
  {
    hide InitOutcome, FromToml, ConfigFile, MergedText, Validate, HeadersOf, AreComments, DecidePlacement;
    var (after, r) := InitOutcome(files, path, isMacOs, a, notes);
    var placement := DecidePlacement(path, isMacOs);
    EtcTakesTheEnvironmentFile(path, isMacOs);
    FilesAfter(files, path, isMacOs, a, notes);
    KeyIsNotValidated(r.value, None);
    ConfigFileReadsBack(OnDisk(r.value, placement), notes);
  }

  /** Whatever `init` does, it writes three files at most, and the environment file only for a key; where it
      reports a problem the config is as it was, and where it does not, the config it replaces is in the backup. */
  lemma InitTouchesThreeFiles(files: Files, path: Path, isMacOs: bool, a: Answers, notes: Notes, other: Path)
    requires path != [] && path != SYSTEMD_ENVIRONMENT_FILE && other != path && other != BackupOf(path)
    requires other == SYSTEMD_ENVIRONMENT_FILE ==> !IsUnderEtc(path, isMacOs) || !IsGiven(a.apiKey)
    ensures var (after, r) := InitOutcome(files, path, isMacOs, a, notes);
      (other in after <==> other in files) && (other in files ==> after[other] == files[other])
      && (r.Err? ==> (path in after <==> path in files) && (path in files ==> after[path] == files[path]))
      && (r.Ok? && path in files ==> BackupOf(path) in after && after[BackupOf(path)] == files[path])
  {
    hide FromToml, ConfigFile, MergedText, Validate, HeadersOf, BackupOf, DecidePlacement, IsUnderEtc, ReadExisting, Trim,
         IsAllWhite;
    BackupIsAnotherFile(path);
    EtcTakesTheEnvironmentFile(path, isMacOs);
    if a.apiKey.Some? {
      BlankIsTrimmedAway(a.apiKey.value);
    }
  }

  lemma {:induction false} StemEndsAtTheLastDot(stem: string, extension: string)
    requires stem != "" && '.' !in extension
    ensures StemLength(stem + "." + extension) == |stem|
  {
    var name := stem + "." + extension;
    assert name[|stem|] == '.';
    if extension == "" {
      assert name[|name| - 1] == '.';
    } else {
      var most := extension[..|extension| - 1];
      StemEndsAtTheLastDot(stem, most);
      assert name[..|name| - 1] == stem + "." + most;
      assert name[|name| - 1] == extension[|extension| - 1];
    }
  }

  /** The backup stands beside the config, its extension replaced. */
  lemma BackupIsBesideIt(directory: Path, stem: string, extension: string)
    requires stem != "" && '.' !in extension
    ensures BackupOf(directory + [stem + "." + extension]) == directory + [stem + ".toml.bak"]
    ensures '.' !in stem ==> BackupOf(directory + [stem]) == directory + [stem + ".toml.bak"]
  {
    hide StemLength;
    StemEndsAtTheLastDot(stem, extension);
    var name := stem + "." + extension;
    assert (directory + [name])[..|directory|] == directory && name[..|stem|] == stem;
    assert (directory + [stem])[..|directory|] == directory && stem[..|stem|] == stem;
    if '.' !in stem {
      NoDotNoExtension(stem);
    }
  }

  lemma NoDotNoExtension(name: string)
    requires '.' !in name
    ensures StemLength(name) == |name|
  {
  }
}
