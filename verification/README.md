# Verification of Pessimal's protocols and codecs

A Dafny model of the parts of Pessimal where a mistake would be silent: the release publisher that must
never show users a half-made release, the config `init` writes and the agent reads, the binary format
between the Swift client and its Rust core, and the state machines that decide what is alive, what is
firing and what was sampled. The files follow the program's own components:

- `Sums`, `ReleaseBuild`, `ReleaseProtocol`, `ReleaseSafety`, `ReleaseClient`, `ReleasePublish`,
  `ReleaseRetry`, `ReleasePromote`, `Formula`, `PublishedReleases`, `SumsFormat`, `ReleaseVersions`,
  `ReleaseTargets`: the publisher. GitHub is a state; each
  request may be applied or not and answered or not, and a run may stop anywhere. `ReleaseProtocol` says
  what requests do and when they are sent, `ReleaseSafety` what that keeps over every run; the client's
  methods are proved to send nothing else. `PublishedReleases` says what users and the tap can rely on;
  `SumsFormat` and `ReleaseVersions` say what the texts and tags are, apart from the code that reads them.
- `Toml`, `TomlLines`, `TomlDocument`: a reader of the subset of TOML v1.0.0 that the agent emits, and a
  writer it undoes. `AgentConfig`, `ConfigText`, `ConfigWriter`: the configuration, its file, and the
  renderers that push it out. `EnvironmentFile`, `Onboarding`, `Init`: the rewriter of the key's file,
  what answers become, and `init` followed by a start.
- `Wire`, `WireLaws`, `WireFormat`, `WireBuffers`, `PollWire`: the UniFFI format over shapes of records, enums,
  optionals and sequences, its laws, its bytes told apart from both sides, the appending writer and the offset-moving reader, and every record
  and enum of a poll result, its write order and its read order listed apart.
- `MetricSeries`, `Alert`, `Collector`, `PollFailures`, `Gather`, `Liveness`: series lookup, alert
  evaluation against its whole history, the snapshot cache against its log, concurrent gathering, failure
  ranking, and thresholds that saturate.
- `DerSignature`, `Urns`: two small codecs. `Texts`, `Lines`: shared vocabulary.

What is assumed: one publisher at a time; a request that was given up has no later effect; the hash is
any function of bytes to text, and equality of hashes is all that is claimed of contents. An instant is
one that chrono's `DateTime<Utc>` represents; a `Duration` is a number of nanoseconds.

Where the code and its own documentation differ, the code is followed:

- `urn.rs` (lines 108-109) says a restored URN cannot be unparseable from its own text. A segment ending in
  a colon is accepted, and its text is read as another name (`Urns.TrailingColonMoves`).
- `liveness.rs` (lines 50-52) says a saturated threshold answers every comparison as the exact one would.
  A multiplier above `i32::MAX` is clamped, which shows for short intervals (`Liveness.ClampShows`); the
  exact condition is `Liveness.SaturatingIsExactIff`.
- `onboarding.rs` (lines 432-435) says rewriting the environment file keeps every other line. A carriage
  return that ends one without a line feed after it is dropped by the second rewrite
  (`EnvironmentFile.LoneReturnIsLost`). A line such as `PESSIMAL_API_KEY =x` is kept although systemd takes
  it for the key; where a key line comes before it, it wins (`EnvironmentFile.OtherSpellingCanWin`), and
  without one the new key is added after it and wins. The exact condition is `EnvironmentFile.KeyIsRead`.

`dafny verify dfyconfig.toml` checks the whole project.

## Model

| member | source | states |
|---|---|---|
| `Sums.ParseSums` | scripts/release-github.py:291-305 | `parse_sums`: the loop over the lines yields the dictionary of all of them, or refuses the whole text |
| `Sums.SumsRoundTrip` | scripts/release-github.py:286-305 | `parse_sums(sums_text(d))` is `d` exactly for non-empty dictionaries of digests whose names fit on a line |
| `Sums.CollectDist` | scripts/release-github.py:225-283 | accepts a directory if and only if it holds exactly the release: each payload asset and sidecar once, nothing else shaped like an asset, every asset non-empty and hashing to its producer's hash |
| `Sums.CollectedAssetsAreBare` | scripts/release-github.py:210-283 | whatever `collect_dist` accepts can be written to `SHA256SUMS` and read back |
| `SumsFormat.ExactDirectoryIs` | scripts/release-github.py:225-283 | file by file: each payload name on one file that is not empty, the name with `.sha256` on one file whose hash is that file's, and no other file that begins like an asset |
| `SumsFormat.ProducersLineIs` | scripts/release-github.py:210-222 | a producer's file gives a hash exactly when its only line that is not blank is that hash, a space, a space or an asterisk, and the very name |
| `SumsFormat.OwnLineIsRead` | scripts/release-github.py:210-222 | the line `sha256sum` prints for a file is read as its hash |
| `SumsFormat.SumsLineIs` | scripts/release-github.py:291-305 | a line is read exactly as 64 hexadecimal digits, two spaces and a name without spaces and slashes |
| `SumsFormat.DigestIs64Digits` | scripts/release-github.py:286-305 | a digest is 64 of the sixteen digits, the letters small |
| `SumsFormat.SumsTextIs` | scripts/release-github.py:286-288 | `sums_text` is one line for each entry, digest first, the names strictly ascending by code point |
| `ReleaseClient.GitHub.Apply` | scripts/release-github.py:404-439 | every effect on the store is sent under its guard, and keeps the safety invariant |
| `ReleaseClient.GitHub.Send` | scripts/release-github.py:404-450 | a retried request has its effect once or not at all; an answer means it has had it |
| `ReleaseClient.GitHub.UploadAsset` | scripts/release-github.py:498-503 | one POST touches nothing but assets of that name on that draft, whatever it does |
| `ReleasePublish.RemoveLeftovers` | scripts/release-github.py:622-626 | success means no asset of that name is left, and nothing else has changed |
| `ReleasePublish.UploadWithCleanup` | scripts/release-github.py:608-631 | normal return: exactly one finished asset of that name and size; attempts used up: none of that name; either way every other asset and the draft flag are untouched |
| `ReleasePublish.AssetSetIsRight` | scripts/release-github.py:557-578 | passes if and only if the names are exactly the manifest's, each once, every upload finished and every known size right |
| `ReleasePublish.ReadBack` | scripts/release-github.py:634-651 | no problem is reported only if every asset's served bytes are its producer's, and then the digests are the producers' |
| `ReleasePublish.ChecksMakeItExact` | scripts/release-github.py:703-725 | the checks made before the flip together imply that the draft is exactly the build |
| `ReleasePublish.ExactPassesChecks` | scripts/release-github.py:752-777 | a release that is exactly the build passes every check a retry makes of it |
| `ReleasePublish.DraftFor` | scripts/release-github.py:681-698 | reuses the one draft of the tag, makes one if there is none, and refuses to choose between several |
| `ReleasePublish.EmptyDraft` | scripts/release-github.py:700-703 | success leaves the draft without assets and other releases as they were |
| `ReleasePublish.UploadPayload` | scripts/release-github.py:705-714 | success leaves exactly the payload on the draft, every file still hashing to what was proved of it |
| `ReleasePublish.CompleteDraft` | scripts/release-github.py:716-749 | success means the draft became a prerelease that is exactly the build; when nothing fails it succeeds exactly when the files are what was proved |
| `ReleasePublish.FinishAlreadyPublished` | scripts/release-github.py:752-777 | when nothing fails, success if and only if the published prerelease is exactly this build's output; it changes nothing |
| `ReleasePublish.Publish` | scripts/release-github.py:654-749 | a run that changes anything or reports success was given a directory `collect_dist` accepts, of a version tag at the expected commit; success means the tag is published with exactly that build, or was found so untouched; when nothing fails it succeeds exactly when, besides, the files are still what was proved and the tag is free or already holds the build |
| `ReleaseSafety.NextKeeps` | scripts/release-github.py:654-931 | every single request keeps the safety invariant |
| `PublishedReleases.EveryPublishedReleaseIsProved` | scripts/release-github.py:654-749 | from an empty repository, over any sequence of stopped and repeated runs: whatever is out of draft was flipped by a run given a manifest, a directory and a commit; it holds exactly that manifest's names, each once, all uploaded; each payload hashes to what its own producer wrote beside it; `SHA256SUMS` is `sums_text` of those hashes; and the tag is at that commit |
| `ReleaseSafety.EveryRunIsSafe` | scripts/release-github.py:654-931 | the safety invariant holds after any sequence of stopped and repeated runs |
| `ReleaseSafety.RunsJoin` | scripts/release-github.py:654-931 | a run that goes on from the store other runs left makes one log with theirs |
| `ReleaseSafety.StoppedRunsAreLawful` | scripts/release-github.py:654-749 | a run stopped at any request is itself one of the runs these statements are about |
| `ReleaseSafety.NoSecondDraft` | scripts/release-github.py:681-698 | over all runs at most one release per tag ever exists, drafts included |
| `ReleaseSafety.PublishedStaysPublished` | scripts/release-github.py:752-777 | once out of draft, no later request of any run changes or deletes an asset, hides the release again or demotes it |
| `ReleaseVersions.TagsAreThreeNumbers` | scripts/release-github.py:159-167 | a tag is a version exactly when it is a `v` and three decimal numbers between dots, and these are its major, minor and patch number in this order |
| `ReleaseVersions.WrittenTagIsReadBack` | scripts/release-github.py:159-167 | `v` and three numbers written out between dots is the version of these numbers |
| `ReleaseVersions.NewerIsAnOrder` | scripts/release-github.py:795-817 | the comparison of versions is a strict total order: the major number beats every minor and patch, the minor every patch |
| `ReleaseVersions.NotNewerIsAtLeast` | scripts/release-github.py:795-817 | comparing two tags is comparing the numbers in them, the major counting most |
| `ReleaseRetry.RetriesConverge` | scripts/release-github.py:677-705 | after any interrupted `publish` runs for one tag and the same artifacts, what `Publish` needs to succeed still holds |
| `ReleaseSafety.NothingGoesBack` | scripts/release-github.py:795-801 | over all runs the three numbers in the tag at `latest`, and in the tag each tap file was rendered for, never decrease, the major counting most and the patch least |
| `ReleaseSafety.TapFollowsLatest` | scripts/release-github.py:912-931 | a tap file changes only to the release that is latest at that moment |
| `ReleaseSafety.TapCarriesPublishedHashes` | scripts/release-github.py:866-909 | the text of a tap file is the rendering of digests that are those of the bytes the release serves, and what reading its own `SHA256SUMS` gives |
| `PublishedReleases.TapNamesServedBytes` | scripts/release-github.py:837-909 | over all runs: a tap file rendered from a well-formed template is that template with every placeholder filled in, each digest the hash of the bytes the file's promoted release serves under the name the placeholder stands for |
| `ReleasePromote.MakeLatest` | scripts/release-github.py:780-824 | ends with the release latest and its numbers at least those that were latest before, or behind a latest whose numbers are greater; when nothing fails, latest if and only if it is a complete published release that no release of greater numbers stands before |
| `ReleasePromote.PutTapFile` | scripts/release-github.py:889-905 | success means the tap holds the text that was sent, and so does a conflict on a retry, which the lost attempt caused |
| `ReleasePromote.PutRendering` | scripts/release-github.py:884-905 | ends with the file holding exactly the rendered text, or says it does not; no other file changes |
| `ReleasePromote.BumpTapFile` | scripts/release-github.py:866-909 | never touches anything but its own tap file; success means the text the client rendered and sent is the rendering of this release's own published digests; when nothing fails it succeeds exactly when there is such a rendering |
| `ReleasePromote.BumpAll` | scripts/release-github.py:827-829 | one target failing stops no other: when nothing fails, every file that can be rendered is, and the answer is whether all could |
| `ReleasePromote.EveryTargetIsBumped` | scripts/release-github.py:827-829 | where no two targets are of one file, all of them hold what the release calls for |
| `ReleasePromote.RunPromote` | scripts/release-github.py:780-830 | the tap is written only after the release is promoted and latest, and not with `--skip-formula` |
| `ReleasePromote.RunBumpFormula` | scripts/release-github.py:912-931 | nothing is written unless the tag's release is promoted and latest; success means every file holds what that release calls for; when nothing fails it succeeds exactly when the release is latest and every file can be rendered |
| `ReleasePromote.ServedSumsAreTheDigests` | scripts/release-github.py:874-877 | reading a published release's `SHA256SUMS` gives the digests its run had checked |
| `Formula.FormulaSaysWhatItNames` | scripts/release-github.py:837-858 | rendering replaces every placeholder by what it stands for and nothing else, and refuses exactly when one stands for nothing or an agent has no line in `SHA256SUMS` |
| `Formula.UnlistedAgentIsRefused` | scripts/release-github.py:841-848 | an agent without a digest, or whose target cannot be told from its name, makes any rendering refuse |
| `Formula.AgentSlotNamesItsAsset` | scripts/release-github.py:841-851 | a target's placeholder stands for the digest of that target's own asset |
| `ReleaseTargets.TemplatesNameTheTargets` | scripts/release-manifest.sh:45-87 | the placeholders of the repository's templates are those of the targets the manifest lists, and each stands for the digest of its own target's tarball, the app's for the app |
| `Toml.TomlString` | agents/common/pessimal_agent_core/src/onboarding.rs:680-698 | the loop writes the quoted string |
| `Toml.StringIsReadBack` | agents/common/pessimal_agent_core/src/onboarding.rs:680-698 | any string, whatever quotes, backslashes and control characters it holds, is read back as itself |
| `Toml.PlainTextIsKept` | agents/common/pessimal_agent_core/src/onboarding.rs:680-698 | printable text without quotes and backslashes is written as it is |
| `TomlLines.EntryIsReadBack` | agents/common/pessimal_agent_core/src/onboarding.rs:563-676 | a written key and value are read back as themselves, or refused exactly for an integer beyond 64 bits |
| `TomlDocument.SettingsAreRead` | agents/common/pessimal_agent_core/src/onboarding.rs:563-676 | every key lands in its own table |
| `TomlDocument.DocumentIsReadBack` | agents/common/pessimal_agent_core/src/onboarding.rs:551-676 | a written document is read as exactly its tables |
| `ConfigWriter.RenderExport` | agents/common/pessimal_agent_core/src/onboarding.rs:563-601 | what is pushed is the `[export]` table and, when there are headers, `[export.headers]` |
| `ConfigWriter.RenderResource` | agents/common/pessimal_agent_core/src/onboarding.rs:604-630 | what is pushed is the `[resource]` table and, when there are attributes, `[resource.attributes]` |
| `ConfigWriter.RenderCollection` | agents/common/pessimal_agent_core/src/onboarding.rs:637-676 | what is pushed is the `[collection]` table |
| `ConfigWriter.RenderToml` | agents/common/pessimal_agent_core/src/onboarding.rs:551-560 | what is pushed piece by piece is the whole config file |
| `ConfigText.ConfigFileReadsBack` | agents/common/pessimal_agent_core/src/onboarding.rs:546-560 | for every config: reading its file gives it back if it is valid and its integers fit TOML's, else the validator's error, else a refusal |
| `AgentConfig.NamesReadBack` | agents/common/pessimal_agent_core/src/preset.rs:118-205 | preset and protocol names are read back as what they name |
| `AgentConfig.NamesAreThese` | agents/common/pessimal_agent_core/src/preset.rs:184-205 | the names a file or variable may use for each preset and protocol, in any case, and no others |
| `AgentConfig.ResolvedHeaders` | agents/common/pessimal_agent_core/src/config.rs:68-74 | the loop over the user's headers gives the preset's headers with the user's laid over them |
| `AgentConfig.UserHeadersWin` | agents/common/pessimal_agent_core/src/config.rs:68-74 | a user's header wins over the preset's in any spelling, and the last spelling in order wins among the user's own |
| `AgentConfig.PresetHeadersRemain` | agents/common/pessimal_agent_core/src/config.rs:68-74 | a header the user does not set is the preset's |
| `AgentConfig.CredentialsAreSent` | agents/common/pessimal_agent_core/src/preset.rs:135-181 | a key goes out in its preset's own header and nowhere else, and Honeycomb's data set in its own |
| `AgentConfig.ValidIff` | agents/common/pessimal_agent_core/src/config.rs:246-295 | valid exactly with an http or https endpoint, a timeout of a second or more and no longer than the interval, a service name that is not blank and no `::` in the environment |
| `AgentConfig.KeysAreThese` | agents/common/pessimal_agent_core/src/config.rs:28-174 | what every key of the three tables is for |
| `AgentConfig.MissingKeysAreDefaults` | agents/common/pessimal_agent_core/src/config.rs:28-174 | a file of nothing but an endpoint, and an empty `[collection]`, which is not a missing one |
| `AgentConfig.UnknownKeysAreRefused` | agents/common/pessimal_agent_core/src/config.rs:28-174 | a table or a key that is not one of these is refused |
| `AgentConfig.LoadedConfig.Override` | agents/common/pessimal_agent_core/src/config.rs:202-246 | assigning field after field gives all overrides at once, or the first problem |
| `AgentConfig.OverridesAreAsSet` | agents/common/pessimal_agent_core/src/config.rs:202-246 | after a start each variable that is set and not empty is its own setting, and nothing else has changed |
| `Onboarding.AnswersMakeAReadyConfig` | agents/common/pessimal_agent_core/src/onboarding.rs:53-103 | answers make a config the agent would start with exactly when the endpoint is an http or https URL, the interval is not zero, the environment holds no `::` and the preset's credentials are there; the timeout is never a problem |
| `Onboarding.ConfigHoldsTheAnswers` | agents/common/pessimal_agent_core/src/onboarding.rs:53-103 | field by field the config is what was answered, texts trimmed, a blank key none and a blank data set the old one; all else is as it was but for a timeout cut to the interval |
| `Onboarding.SameAnswersChangeNothing` | agents/common/pessimal_agent_core/src/onboarding.rs:53-103 | answering with what the config says already gives it back, exactly when nothing in it is blank or surrounded by blanks |
| `EnvironmentFile.MergeEnvironmentFile` | agents/common/pessimal_agent_core/src/onboarding.rs:437-457 | the loop over the lines gives the rewritten file |
| `EnvironmentFile.OthersStayInOrder` | agents/common/pessimal_agent_core/src/onboarding.rs:433-457 | every other line is kept in order, there is a key line, and all key lines hold the new key |
| `EnvironmentFile.SecondKeyReplacesTheFirst` | agents/common/pessimal_agent_core/src/onboarding.rs:437-457 | a second rewrite replaces the first wholly, and repeating one changes nothing, exactly when no kept line ends in a carriage return |
| `EnvironmentFile.LoneReturnIsLost` | agents/common/pessimal_agent_core/src/onboarding.rs:437-457 | a file for which a repeated rewrite does change something |
| `EnvironmentFile.KeyIsRead` | agents/common/pessimal_agent_core/src/onboarding.rs:437-457 | systemd reads the new key exactly when no line that only systemd takes for the key's comes after the last key line |
| `EnvironmentFile.OtherSpellingCanWin` | agents/common/pessimal_agent_core/src/onboarding.rs:437-457 | a file for which systemd does not read the new key: a key line, and after it `PESSIMAL_API_KEY =x` |
| `EnvironmentFile.OtherVariablesStay` | agents/common/pessimal_agent_core/src/onboarding.rs:433-457 | a rewrite changes no other variable |
| `Init.WriteEnvironmentFile` | agents/host/pessimal_agent_host/src/init.rs:801-810 | the file is the old one rewritten with the key |
| `Init.WriteConfig` | agents/host/pessimal_agent_host/src/init.rs:767-798 | the file is written, and the old one kept as a backup, unless an integer does not fit TOML's; the read-back check never refuses for any other reason |
| `Init.RunInit` | agents/host/pessimal_agent_host/src/init.rs:199-246 | the key's file first, then the config: the files left and the result, in every case |
| `Init.Start` | agents/common/pessimal_agent_core/src/config.rs:176-246 | a start reads the file and applies the environment |
| `Init.StartGivesBackTheAnswers` | agents/host/pessimal_agent_host/src/init.rs:229-246 | a start after `init` runs with exactly the config that was answered, which is the answers field by field, if and only if the key comes back from where it was put |
| `Init.FreshInstallStartsAsAnswered` | agents/host/pessimal_agent_host/src/init.rs:229-246 | without an environment file there before, a start after `init` always runs with the config that was answered, field by field |
| `Init.KeyIsInOnePlace` | agents/host/pessimal_agent_host/src/init.rs:229-246 | under `/etc` the config file says all but the key, which is merged into the environment file; anywhere else the config file says everything |
| `Init.InitTouchesThreeFiles` | agents/host/pessimal_agent_host/src/init.rs:199-246 | nothing but the config, its backup and, for a key under `/etc`, the environment file is written; a problem leaves the config as it was, and success leaves the old config in the backup |
| `Init.BackupIsBesideIt` | agents/host/pessimal_agent_host/src/init.rs:784-784 | the backup stands beside the config, `.toml.bak` in place of its extension |
| `WireBuffers.Writer.Write` | clients/apple/PessimalFFI/Sources/PessimalFFI.swift:180-193 | appending converter by converter appends the encoding |
| `WireBuffers.Reader.Read` | clients/apple/PessimalFFI/Sources/PessimalFFI.swift:128-160 | moving the offset converter by converter reads what the encoding says, or fails as it does |
| `WireBuffers.Lower` | clients/apple/PessimalFFI/Sources/PessimalFFI.swift:255-260 | `lower` gives the encoding |
| `WireBuffers.LiftBuffer` | clients/apple/PessimalFFI/Sources/PessimalFFI.swift:241-249 | `lift` reads one value and refuses what is left over |
| `WireLaws.FirstByteCountsMost` | clients/apple/PessimalFFI/Sources/PessimalFFI.swift:121-140 | integers are big-endian |
| `WireFormat.Int64IsWritten` | clients/apple/PessimalFFI/Sources/PessimalFFI.swift:500-515 | an `Int64` is written in eight bytes as two's complement, the most significant first |
| `WireFormat.Int64IsRead` | clients/apple/PessimalFFI/Sources/PessimalFFI.swift:500-515 | any eight bytes are read as the `Int64` congruent to them modulo 2^64, negative exactly with the first bit set |
| `WireFormat.NumbersAreWritten` | clients/apple/PessimalFFI/Sources/PessimalFFI.swift:180-203 | unsigned integers and doubles are their big-endian value and pattern, a boolean is the byte 1 or 0 |
| `WireFormat.TextsAndOptionalsAreWritten` | clients/apple/PessimalFFI/Sources/PessimalFFI.swift:556-600 | a string is its count in four bytes and its bytes; an optional is a zero byte, or a byte 1 and its value |
| `WireFormat.ItemsAreWritten` | clients/apple/PessimalFFI/Sources/PessimalFFI.swift:6799-6818 | a sequence is its count in four bytes and its items, each right after those before it |
| `WireFormat.FieldsAreWritten` | clients/apple/PessimalFFI/Sources/PessimalFFI.swift:3211-3228 | a record is its fields in order and nothing else |
| `WireFormat.CasesAreWritten` | clients/apple/PessimalFFI/Sources/PessimalFFI.swift:4954-4995 | an enum is the position of its case in four bytes, counted from 1, and what the case carries |
| `WireLaws.WrittenIsRead` | clients/apple/PessimalFFI/Sources/PessimalFFI.swift:128-193 | a written value of any shape, wherever it stands and whatever follows, is read back, and the reader stops exactly at its end |
| `WireLaws.CutShortOverflows` | clients/apple/PessimalFFI/Sources/PessimalFFI.swift:128-158 | every strict prefix of an encoding throws `bufferOverflow` |
| `WireLaws.EncodingsArePrefixFree` | clients/apple/PessimalFFI/Sources/PessimalFFI.swift:128-193 | no encoding begins another of the same shape |
| `WireLaws.LiftUndoesLower` | clients/apple/PessimalFFI/Sources/PessimalFFI.swift:238-260 | `lift` of `lower` is the value; with bytes left over or missing it throws |
| `WireLaws.ReadIsRewritten` | clients/apple/PessimalFFI/Sources/PessimalFFI.swift:128-193 | whatever is read is written back in as many bytes, and in the same bytes where no boolean is involved |
| `WireLaws.ManyBytesAreTrue` | clients/apple/PessimalFFI/Sources/PessimalFFI.swift:536-546 | a boolean is read from any non-zero byte, so writing after reading need not give the bytes back |
| `WireLaws.NegativeCountTraps` | clients/apple/PessimalFFI/Sources/PessimalFFI.swift:147-158 | a negative count traps |
| `PollWire.PollResultCrosses` | clients/apple/PessimalFFI/Sources/PessimalFFI.swift:3211-3228 | a poll result written anywhere in a buffer is read back and the reader stops at its end |
| `PollWire.PollResultIsLifted` | clients/apple/PessimalFFI/Sources/PessimalFFI.swift:3211-3228 | a poll result is lifted from exactly its own bytes, and from no others beginning with them or cut from them |
| `MetricSeries.EndingAt` | common/pessimal_core/src/metric.rs:235-247 | succeeds exactly when the window is positive and does not reach back past the earliest instant; the window holds exactly the ages below its length |
| `MetricSeries.NewRange` | common/pessimal_core/src/metric.rs:214-221 | a window is accepted exactly when its start is before its end, and holds the instants from its start on and before its end |
| `MetricSeries.SortedIsAStableSort` | common/pessimal_core/src/metric.rs:315-323 | building a series sorts its points and keeps points of one instant in order |
| `MetricSeries.OneStableSort` | common/pessimal_core/src/metric.rs:315-323 | there is only one such result |
| `MetricSeries.RestoringIsTheIdentity` | common/pessimal_core/src/metric.rs:416-421 | sorting again on restoring changes nothing |
| `MetricSeries.OrderDoesNotMatter` | common/pessimal_core/src/metric.rs:315-323 | with distinct instants the series depends on the set of points alone |
| `MetricSeries.LookupIsASearch` | common/pessimal_core/src/metric.rs:355-357 | `latest_at` is the point of greatest time at or before the instant, the last to come among equals, and nothing exactly when there is none |
| `MetricSeries.SeriesWindowsJoin` | common/pessimal_core/src/metric.rs:361-367 | `within` over two windows that meet concatenates to `within` over both |
| `MetricSeries.WindowHoldsItsPoints` | common/pessimal_core/src/metric.rs:361-367 | `within` holds exactly the points from the start on and before the end, in order |
| `Alert.ComparatorsAreOpposite` | common/pessimal_core/src/alert.rs:28-35 | a NaN satisfies no comparator; of other values each comparator or its opposite holds |
| `Alert.ComparatorsCompare` | common/pessimal_core/src/alert.rs:28-35 | each comparator is the comparison of real numbers it is named for; the infinities compare as they should and NaN never |
| `Alert.ResultOfAPoll` | common/pessimal_core/src/alert.rs:289-324 | a poll says nothing is wrong of a rule that is off or for other hosts, no data without a sample young enough, and otherwise whether the latest sample is out of bounds |
| `Alert.RulesAreRestored` | common/pessimal_core/src/alert.rs:85-204 | a rule is accepted exactly with a name, a finite threshold, a dwell of zero to 365 days and a usable environment, and is then enabled for every host with what was given; what is persisted of it is restored as it was, identifier included, and nothing that is not a rule is restored |
| `Alert.AlertEvaluation.Observe` | common/pessimal_core/src/alert.rs:289-324 | the one-instant state after any poll is the verdict over the whole history of polls, rule edits included; a fresh number at or below a `GreaterThan` threshold, below a `GreaterThanOrEqual` one, and so on, leaves it `Ok`, and any other number does not |
| `Alert.RunStart` | common/pessimal_core/src/alert.rs:311-318 | the breach began at the first poll of the unbroken run of enabled, selected, fresh, breaching polls |
| `Alert.FiringBeginsAfterTheDwell` | common/pessimal_core/src/alert.rs:311-318 | within a run, firing begins at the first poll at or after the start plus the dwell, and lasts until the run breaks |
| `Alert.LongDwellNeedsASecondSample` | common/pessimal_core/src/alert.rs:306-318 | with a dwell above `max_age`, the judged sample of a firing is newer than the one that opened the breach |
| `Alert.SpikeCanFireIff` | common/pessimal_core/src/alert.rs:306-318 | some history fires on a single sample exactly when the dwell is at most `max_age` |
| `Collector.CachedCollector.TakeSnapshot` | agents/common/pessimal_agent_core/src/collector.rs:121-160 | the returned snapshot is the last success with its original time or an empty one, and younger than `max_age` unless it was just taken or sampling just failed; both counters are those of the log of samples, saturating |
| `Collector.FailuresAreCounted` | agents/common/pessimal_agent_core/src/collector.rs:138-180 | the total counts every failed sample, the consecutive count those since the last success |
| `Collector.SuccessesAreFarApart` | agents/common/pessimal_agent_core/src/collector.rs:128-136 | any two successful samples are at least `max_age` apart |
| `Collector.EveryCycleSamplesOnce` | agents/common/pessimal_agent_core/src/collector.rs:89-97 | with callbacks spanning less than `max_age` and at most the interval minus `max_age`, each cycle's first callback samples; if that succeeds, it is the only sample and all callbacks are given it |
| `Collector.LongCycleSamplesTwice` | agents/common/pessimal_agent_core/src/collector.rs:89-97 | callbacks that span `max_age` can sample twice in one cycle |
| `Gather.ExecutePlan` | clients/common/pessimal_client_core/src/gather.rs:49-82 | whatever order requests complete in: one outcome per query, in plan order, with its own spec; each failure of its own source, stamped with the poll's instant |
| `Gather.AnswersAreKept` | clients/common/pessimal_client_core/src/gather.rs:49-82 | each answered query's series are recorded whole under its own spec, each refused one's failure, and likewise the roster |
| `Gather.ScheduleDoesNotMatter` | clients/common/pessimal_client_core/src/gather.rs:49-82 | any two complete schedules leave the same answers, and nothing outstanding |
| `Gather.OneLessOutstanding` | clients/common/pessimal_client_core/src/gather.rs:49-82 | the number of outstanding requests goes down with each completion |
| `Gather.OneFailurePerRefusal` | clients/common/pessimal_client_core/src/gather.rs:61-73 | one failure record per refused query, in plan order, and none else |
| `Gather.RosterFailureIsRecorded` | clients/common/pessimal_client_core/src/gather.rs:50-59 | the roster's failure is recorded exactly when it was refused |
| `PollFailures.OneIsWorse` | clients/common/pessimal_client_core/src/error.rs:197-223 | the ranking is a total order on failures |
| `PollFailures.WorseIsTransitive` | clients/common/pessimal_client_core/src/error.rs:197-223 | the ranking is transitive |
| `PollFailures.KeysAreFaithful` | clients/common/pessimal_client_core/src/error.rs:207-223 | equal keys mean equal failures |
| `PollFailures.ErrorsRankFirst` | clients/common/pessimal_client_core/src/error.rs:109-223 | a refused credential is worse than an unreachable backend, that than a backend's error, and that than anything else, whatever they are of and whenever they came |
| `PollFailures.TiesAreBroken` | clients/common/pessimal_client_core/src/error.rs:193-223 | of one kind the roster comes first, then the metrics in their order, then the lesser message, then the earlier instant |
| `PollFailures.KindsAreThese` | clients/common/pessimal_client_core/src/error.rs:109-190 | the kind of each error; a failure keeps its source and its instant |
| `PollFailures.WorstFailure` | clients/common/pessimal_client_core/src/error.rs:229-233 | returns an element that no element of the list is worse than, and nothing only for the empty list |
| `PollFailures.WorstIsOrderFree` | clients/common/pessimal_client_core/src/error.rs:225-233 | lists of the same failures in any order have the same worst one |
| `Liveness.SaturatingIsExact` | common/pessimal_core/src/liveness.rs:59-130 | for multipliers up to `i32::MAX` the saturating thresholds judge every pair of instants as unbounded multiplication does |
| `Liveness.SaturatingIsExactIff` | common/pessimal_core/src/liveness.rs:59-130 | for any policy they do so on all pairs exactly when the multipliers fit `i32` or the clamped product exceeds every possible age |
| `Liveness.ClampShows` | common/pessimal_core/src/liveness.rs:59-63 | where they do not: one nanosecond beyond the clamped threshold |
| `Liveness.VerdictOnlyWorsens` | common/pessimal_core/src/liveness.rs:118-130 | the verdict on a heartbeat never improves as time passes |
| `Liveness.ThresholdsCanBeOutOfOrder` | common/pessimal_core/src/liveness.rs:53-63 | some accepted policy's saturated thresholds are out of order |
| `Liveness.VerdictsMean` | common/pessimal_core/src/liveness.rs:118-130 | alive up to the interval times the first multiplier, down beyond the interval times the second, stale between, unknown without a heartbeat; multipliers above `i32::MAX` count as that |
| `Liveness.NewPolicy` | common/pessimal_core/src/liveness.rs:67-97 | a policy is accepted exactly with a positive interval and multipliers of at least 1, the first below the second |
| `DerSignature.DerToRawSignature` | scripts/asc.py:44-61 | the cursor over the bytes gives the converted signature or the way the script fails |
| `DerSignature.DerBecomesJose` | scripts/asc.py:44-61 | the DER SEQUENCE of two INTEGERs below 2^256 becomes the two numbers in 32 big-endian bytes each |
| `DerSignature.SignatureIsRead` | scripts/asc.py:48-61 | any header, short or long, and any contents, minimal or not, give the two padded values |
| `DerSignature.PaddingKeepsTheValue` | scripts/asc.py:57-58 | sign padding and short integers preserve the value; 32 bytes come out exactly of values below 2^256 |
| `DerSignature.JoseHas64BytesIff` | scripts/asc.py:44-61 | the result has 64 bytes exactly when both numbers fit 32 |
| `DerSignature.CutOffIsNotNoticed` | scripts/asc.py:52-58 | a signature cut off inside its second number is converted all the same |
| `Urns.SplitUndoesJoinIff` | common/pessimal_core/src/urn.rs:133-153 | splitting at the leftmost separators undoes joining exactly for segments that hold none and, but for the last, do not end in a colon |
| `Urns.ParseUndoesPrintIff` | common/pessimal_core/src/urn.rs:133-157 | an accepted name is read back from its text exactly when none of its four segments ends in a colon |
| `Urns.PrintUndoesParseIff` | common/pessimal_core/src/urn.rs:133-157 | an accepted text is printed back exactly when its UUID is canonical |
| `Urns.ParsedNamesAreStable` | common/pessimal_core/src/urn.rs:133-157 | whatever was read is read back from its own text |
| `Urns.TrailingColonMoves` | common/pessimal_core/src/urn.rs:66-72 | two different names that are both accepted and share one text |
| `Urns.PrintedUuidIsRead` | common/pessimal_core/src/urn.rs:133-140 | a printed UUID is read back |
| `Urns.ReadUuidIsPrintedIff` | common/pessimal_core/src/urn.rs:154-155 | of the spellings of a UUID that are read, exactly the canonical one is printed |
| `Urns.SpellingsAreRead` | common/pessimal_core/src/urn.rs:154-155 | a UUID is read in either case, hyphenated alone, in braces or after `urn:uuid:`, and as bare digits |

## Left out

- HTTP, TLS, redirects, credentials, redaction, Doppler and paging: a request has an effect or none, and an answer or none.
- The release notes, the changelog, `BUILDKITE_COMMIT` as a source of the expected commit, annotated tags, and the checks of an answer against the request it answers, which cannot fail here. `$` in the tag pattern also admits a trailing newline, which is not modelled.
- ReleaseClient.GitHub.Send: a second writer, or an abandoned request that takes effect later, is not modelled; the source assumes neither happens.
- ReleaseRetry.RetriesConverge: starts from a store with one release per tag at most, because GitHub itself admits several drafts, and `publish` refuses to choose between them (`ReleasePublish.DraftFor`).
- Formula.FormulaSaysWhatItNames: templates in which no `@` outside a placeholder begins what could become one, and something other than `A` to `Z`, digits and `_` follows each placeholder; targets of lower-case letters, digits, `_` and `-` with different placeholders. Every template of the repository is one.
- The tap's other files and GitHub's history of it; a conflict with a second committer is the source's "changed under us" and is not modelled.
- ConfigText.ConfigFileReadsBack: the `toml` crate is not part of this model; the reader here covers the lines the agent writes (bare and quoted keys, basic strings, decimal integers, booleans, arrays of strings, tables and comments) and refuses others.
- Comment lines of the config file are a parameter: the proofs hold for any.
- Init.StartGivesBackTheAnswers: the reader of the environment file knows plain `KEY=VALUE` lines, comments and blanks, not systemd's quoting and continuation lines; the key must be plain, and the config must not be written over the key's own file.
- Where `init` looks for and puts a config, its prompts, file modes, the atomic rename, the test export and the service.
- AgentConfig.LoadedConfig.Override: the source's errors carry wording, here they are named only.
- PollWire.PollResultCrosses: strings are their UTF-8 bytes; Swift's repair of invalid UTF-8 on reading is not modelled, nor is the memory that `reserveCapacity` asks for.
- Records of the FFI outside a poll result, and the Rust side of the boundary.
- The folds over a series (`mean`, `max`, `min`), the sort's own algorithm, metric names and units; a double is an ordered value or a NaN, and nothing is rounded.
- Alert.RulesAreRestored: the minting of a rule's UUID, which is a parameter.
- The mutex around the cache and what a sample is made of: sampling gives anything or fails.
- How the futures are driven: requests complete one at a time in any order.
- `FleetSession`, planning, folding, normalising and settings synchronisation: nothing of them is modelled.
- Signing, profiles and the rest of `asc.py`; minting of UUIDs.
