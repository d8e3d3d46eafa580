/** What users can rely on (scripts/release-github.py): from a repository without releases, over any runs
    of `publish`, `promote` and `bump-formula`, each stopping wherever it stops, what a published release
    holds and what the Homebrew tap says of it. */
module PublishedReleases {
  import opened Texts
  import opened Sums
  import opened ReleaseBuild
  import opened ReleaseProtocol
  import opened ReleaseSafety
  import opened Formula

  // ----- releases

  /** The one line that the producer of an asset wrote beside it. */
  ghost predicate IsProducersHash(dist: seq<File>, name: string, hash: string) {
    |ContentsNamed(dist, name + SIDECAR)| == 1
    && ProducerHash(ContentsNamed(dist, name + SIDECAR)[0], name) == Some(hash)
  }

  /** By name, the hash of each payload asset that its own producer wrote. */
  ghost predicate AreProducersHashes(w: Warrant, hashes: map<string, string>) {
    hashes.Keys == (set n | n in w.names && n != SUMS)
    && forall n :: n in hashes ==> IsProducersHash(w.dist, n, hashes[n])
  }

  /** Exactly the manifest's names, each once, all uploaded; every payload asset hashes to what its producer
      wrote beside it; `SHA256SUMS` is `sums_text` of those hashes. */
  ghost predicate IsTheRelease(held: map<nat, Asset>, sha: Bytes -> string, w: Warrant) {
    NamesOf(held) == (set n | n in w.names) && NamesDiffer(held)
    && (forall id :: id in held ==> held[id].state == Uploaded)
    && exists hashes :: AreProducersHashes(w, hashes) && HoldsHashes(held, sha, hashes)
  }

  ghost predicate HoldsHashes(held: map<nat, Asset>, sha: Bytes -> string, hashes: map<string, string>) {
    forall id :: id in held ==>
      if held[id].name == SUMS then held[id].content == SumsText(hashes)
      else held[id].name in hashes && sha(held[id].content) == hashes[held[id].name]
  }

  lemma WarrantedDigests(w: Warrant, sha: Bytes -> string, build: Build)
    requires IsWarranted(w, sha, build)
    ensures AreProducersHashes(w, Digests(build)) && SUMS in w.names
    ensures (set n | n in w.names) == build.Keys + {SUMS}
  {
    hide ContentsNamed, ProducerHash, LocalDigests, IsDistinct, Collected;
    var payload := PayloadNames(w.names);
    var locals := Collected(w.dist, sha, payload);
    CollectedNamesAreThePayload(w.dist, sha, w.names);
    BuildRecordsLocals(locals);
    assert build.Keys == (set n | n in w.names && n != SUMS);
    forall n | n in build ensures IsProducersHash(w.dist, n, Digests(build)[n]) {
      var l :| l in locals && l.name == n;
      LocalIsProved(w.dist, sha, payload, l);
      assert build[n] == Payload(|l.data|, l.sha256);
    }
  }

  lemma LocalIsProved(dist: seq<File>, sha: Bytes -> string, payload: seq<string>, l: LocalAsset)
    requires IsExactlyTheRelease(dist, sha, payload) && l in Collected(dist, sha, payload)
    ensures IsProducersHash(dist, l.name, l.sha256)
  {
    var k :| 0 <= k < |payload| && Collected(dist, sha, payload)[k] == l;
    assert payload[k] in payload;
    assert IsProved(dist, sha, payload[k]);
  }

  lemma ExactIsTheRelease(held: map<nat, Asset>, sha: Bytes -> string, w: Warrant, build: Build)
    requires IsExact(held, sha, build) && IsWarranted(w, sha, build)
    ensures IsTheRelease(held, sha, w)
  {
    hide IsWarranted, AreProducersHashes, SumsText;
    WarrantedDigests(w, sha, build);
    assert HoldsHashes(held, sha, Digests(build)) by {
      forall id | id in held ensures IsAsBuilt(held[id], sha, build) {}
    }
  }

  /** A flip of the log that published the release, with this warrant. */
  ghost predicate PublishedBy(log: seq<Action>, r: nat, w: Warrant) {
    exists a :: a in log && a.Flip? && a.release == r && a.warrant == w
  }

  lemma OneMoreRequest(s: Store, sha: Bytes -> string, a: Action, r: nat)
    requires IdsAreKnown(s) && Guard(s, sha, a) && IsOut(Next(s, a), r)
    ensures var attested := Next(s, a).releases[r].attested;
      if a.Flip? && a.release == r then attested == Some(Attestation(a.build, a.warrant))
      else IsOut(s, r) && attested == s.releases[r].attested
  {
    hide IsExact, IsWarranted, AllBare, VersionOf, RenderFormula, NothingNewerIsLatest, NoneNamed, NonePublished;
  }

  lemma {:induction false} SomeFlipPublished(s: Store, sha: Bytes -> string, log: seq<Action>, r: nat)
    requires IsEmpty(s) && Lawful(s, sha, log) && IsOut(After(s, log), r)
    ensures After(s, log).releases[r].attested.Some?
    ensures PublishedBy(log, r, After(s, log).releases[r].attested.value.warrant)
  {
    hide Guard, Next, Inv;
    if log != [] {
      var most, last := log[..|log| - 1], log[|log| - 1];
      assert log == most + [last] && last in log;
      EmptyIsSafe(s, sha);
      EveryRunIsSafe(s, sha, most);
      assert IdsAreKnown(After(s, most)) by { SafeIdsAreKnown(After(s, most), sha); }
      OneMoreRequest(After(s, most), sha, last, r);
      if !(last.Flip? && last.release == r) {
        SomeFlipPublished(s, sha, most, r);
      }
    }
  }

  lemma SafeIdsAreKnown(s: Store, sha: Bytes -> string)
    requires Inv(s, sha)
    ensures IdsAreKnown(s)
  {
    hide IdsAreKnown;
  }

  /** Publish safety over all runs: whatever requests fail or lose their answer, and wherever runs stop, a
      release is out of draft only as exactly the release that some run was given and had proved, of a tag at
      the commit that run expected. */
  lemma EveryPublishedReleaseIsProved(s: Store, sha: Bytes -> string, log: seq<Action>, r: nat)
    requires IsEmpty(s) && Lawful(s, sha, log) && IsOut(After(s, log), r)
    ensures var now := After(s, log); var release := now.releases[r];
      release.attested.Some?
      && var w := release.attested.value.warrant;
         PublishedBy(log, r, w) && release.tag in now.tags && (w.commit.Some? ==> now.tags[release.tag] == w.commit.value)
         && IsTheRelease(AssetsOf(now, r), sha, w)
  {
    hide After, Lawful, IsExact, IsWarranted, AllBare, IsTheRelease, PublishedBy, IsEmpty,
         TagsAreSingle, NamesAreSingle, LatestIsNewest, TapIsRendered, IdsAreKnown, AssetsOf;
    EmptyIsSafe(s, sha);
    EveryRunIsSafe(s, sha, log);
    SomeFlipPublished(s, sha, log, r);
    var now := After(s, log);
    var a := now.releases[r].attested.value;
    assert IsSound(now, sha, now.releases[r].tag, a);
    ExactIsTheRelease(AssetsOf(now, r), sha, a.warrant, a.build);
  }

  // ----- the tap

  /** `digest` is the hash of the bytes that the release serves under this name. */
  ghost predicate IsHashOfServed(s: Store, sha: Bytes -> string, release: nat, name: string, digest: string) {
    exists id :: id in AssetsOf(s, release) && s.assets[id].name == name && digest == sha(s.assets[id].content)
  }

  lemma DigestIsServed(s: Store, sha: Bytes -> string, release: nat, name: string)
    requires Inv(s, sha) && IsOut(s, release)
    requires name in s.releases[release].attested.value.build
    ensures IsHashOfServed(s, sha, release, name, Digests(s.releases[release].attested.value.build)[name])
  {
    hide TagsAreSingle, NamesAreSingle, LatestIsNewest, TapIsRendered, IdsAreKnown, IsWarranted, AllBare, SumsText;
    var a, held := s.releases[release].attested.value, AssetsOf(s, release);
    assert IsSound(s, sha, s.releases[release].tag, a) && IsExact(held, sha, a.build);
    WarrantedDigests(a.warrant, sha, a.build);
    PayloadIsNotSums(a.warrant, a.build);
    assert name in NamesOf(held);
    var id :| id in held && held[id].name == name;
    assert IsAsBuilt(held[id], sha, a.build);
  }

  lemma PayloadIsNotSums(w: Warrant, build: Build)
    requires AreProducersHashes(w, Digests(build))
    ensures SUMS !in build
  {
    assert Digests(build).Keys == build.Keys;
  }

  lemma {:induction false} PartsHoldTheText(text: string, c: char)
    requires c != '.' && c in text
    ensures exists part :: part in SplitAtDots(text) && c in part
  {
    var rest := SplitAtDots(text[1..]);
    if text[0] != c {
      assert text == [text[0]] + text[1..];
      PartsHoldTheText(text[1..], c);
      var part :| part in rest && c in part;
      var k :| 0 <= k < |rest| && rest[k] == part;
      if text[0] == '.' {
        assert SplitAtDots(text)[k + 1] == part;
      } else if k == 0 {
        assert SplitAtDots(text)[0] == [text[0]] + part && c in [text[0]] + part;
      } else {
        assert SplitAtDots(text)[k] == part;
      }
    } else if rest == [] {
      assert SplitAtDots(text) == [text];
    } else {
      assert SplitAtDots(text)[0] == [c] + rest[0] && c in [c] + rest[0];
    }
  }

  lemma VersionTagIsPlain(tag: string)
    requires VersionOf(tag).Some?
    ensures tag != "" && '@' !in tag
  {
    assert tag[..1] == "v" && tag == "v" + tag[1..];
    forall part | part in SplitAtDots(tag[1..]) ensures '@' !in part {
      assert IsDecimal(part);
    }
    if '@' in tag[1..] {
      PartsHoldTheText(tag[1..], '@');
    }
  }

  /** What became of a piece of the template: a placeholder now reads as the version, the tag, the repository,
      or the hash of the bytes served under the name it stands for; plain text is as it was. */
  ghost predicate IsFilledIn(s: Store, sha: Bytes -> string, release: nat, manifest: Manifest, triples: seq<string>,
                             part: Part, done: Part)
    requires release in s.releases && s.releases[release].tag != ""
  {
    var tag := s.releases[release].tag;
    done.text == part.text
    && if !IsSlot(part.token) then done.token == part.token
       else if part.token == "@VERSION@" then done.token == tag[1..]
       else if part.token == "@TAG@" then done.token == tag
       else if part.token == "@REPO@" then done.token == REPO
       else if part.token == APP_SLOT then IsHashOfServed(s, sha, release, manifest.app, done.token)
       else exists t :: t in triples && AgentSlot(t) == part.token
                        && IsHashOfServed(s, sha, release, AgentAsset(tag[1..], t), done.token)
  }

  ghost predicate AreFilledIn(s: Store, sha: Bytes -> string, release: nat, manifest: Manifest, triples: seq<string>,
                              parts: seq<Part>, done: seq<Part>)
    requires release in s.releases && s.releases[release].tag != ""
  {
    |done| == |parts| && forall i :: 0 <= i < |parts| ==> IsFilledIn(s, sha, release, manifest, triples, parts[i], done[i])
  }

  lemma {:induction false} AgentValueIsOfATarget(slot: string, version: string, triples: seq<string>, digests: map<string, string>)
    requires AgentValue(slot, version, triples, digests).Some?
    ensures exists t :: t in triples && AgentSlot(t) == slot && AgentAsset(version, t) in digests
                        && AgentValue(slot, version, triples, digests) == Some(digests[AgentAsset(version, t)])
  {
    hide AgentSlot, AgentAsset;
    if AgentSlot(triples[0]) != slot {
      AgentValueIsOfATarget(slot, version, triples[1..], digests);
    }
  }

  lemma PartIsFilledIn(s: Store, sha: Bytes -> string, release: nat, manifest: Manifest, triples: seq<string>, part: Part)
    requires Inv(s, sha) && IsOut(s, release) && s.releases[release].tag != "" && s.releases[release].attested.Some?
    requires var tag := s.releases[release].tag; var digests := Digests(s.releases[release].attested.value.build);
      IsSlot(part.token) ==> ValueOf(part.token, tag, manifest, triples, digests).Some?
    ensures var tag := s.releases[release].tag; var digests := Digests(s.releases[release].attested.value.build);
      var value := ValueOf(part.token, tag, manifest, triples, digests);
      IsSlot(part.token) ==> IsFilledIn(s, sha, release, manifest, triples, part, Part(value.value, part.text))
  {
    hide Inv, IsSlot, AgentSlot, AgentAsset, IsHashOfServed, AgentValue;
    var tag, build := s.releases[release].tag, s.releases[release].attested.value.build;
    if IsSlot(part.token) {
      if part.token == APP_SLOT {
        DigestIsServed(s, sha, release, manifest.app);
      } else if part.token !in ["@VERSION@", "@TAG@", "@REPO@"] {
        AgentValueIsOfATarget(part.token, tag[1..], triples, Digests(build));
        var t :| t in triples && AgentSlot(t) == part.token && AgentAsset(tag[1..], t) in Digests(build)
          && AgentValue(part.token, tag[1..], triples, Digests(build)) == Some(Digests(build)[AgentAsset(tag[1..], t)]);
        DigestIsServed(s, sha, release, AgentAsset(tag[1..], t));
      }
    }
  }

  lemma {:induction false} PlainTokenHasNoValue(token: string, tag: string, manifest: Manifest, triples: seq<string>, digests: map<string, string>)
    requires tag != "" && !IsSlot(token) && forall i :: 0 <= i < |triples| ==> IsTriple(triples[i])
    ensures ValueOf(token, tag, manifest, triples, digests) == None
  {
    hide IsSlot, AgentSlot, IsTriple;
    FixedSlots();
    forall i | 0 <= i < |triples| ensures AgentSlot(triples[i]) != token {
      AgentSlotIsASlot(triples[i]);
    }
    NoneHasTheSlot(triples, token, tag[1..], digests);
  }

  /** What the tap says, over all runs: a file rendered from a well-formed template is that template with every
      placeholder filled in, each digest being the hash of the bytes that the file's own release -- promoted,
      and latest when the file was written -- serves under the name the placeholder stands for. */
  lemma TapNamesServedBytes(s: Store, sha: Bytes -> string, log: seq<Action>, path: string, parts: seq<Part>, triples: seq<string>)
    requires IsEmpty(s) && Lawful(s, sha, log) && path in After(s, log).tap
    requires AreParts(parts) && After(s, log).tap[path].template == Flat(parts)
    requires IsTapOf(After(s, log), path, triples)
    ensures var now := After(s, log); var f := now.tap[path];
      now.releases[f.release].phase == Promoted
      && exists done :: f.text == Flat(done) && AreFilledIn(now, sha, f.release, f.manifest, triples, parts, done)
  {
    hide After, Lawful, IsEmpty, Flat, AreParts, RenderFormula, ValueOf, IsSlot, IsFilledIn, AgentSlot, AgentAsset, IsTriple,
         PublishedIsExact, NamesAreSingle, IdsAreKnown, LatestIsNewest, AllBare, VersionOf;
    EmptyIsSafe(s, sha);
    EveryRunIsSafe(s, sha, log);
    var now := After(s, log);
    var f := now.tap[path];
    var release := now.releases[f.release];
    assert IsOut(now, f.release);
    VersionTagIsPlain(release.tag);
    var digests := Digests(release.attested.value.build);
    PublishedDigestsAreBare(now, sha, f.release);
    FormulaSaysWhatItNames(parts, release.tag, f.manifest, triples, digests);
    var done := FilledIn(parts, release.tag, f.manifest, triples, digests);
    forall i | 0 <= i < |parts| ensures IsFilledIn(now, sha, f.release, f.manifest, triples, parts[i], done[i]) {
      PartIsFilledIn(now, sha, f.release, f.manifest, triples, parts[i]);
      if !IsSlot(parts[i].token) {
        PlainTokenHasNoValue(parts[i].token, release.tag, f.manifest, triples, digests);
        PlainPartIsFilledIn(now, sha, f.release, f.manifest, triples, parts[i]);
      }
    }
    assert AreFilledIn(now, sha, f.release, f.manifest, triples, parts, done);
  }

  /** The file's manifest is that of these targets. */
  predicate IsTapOf(s: Store, path: string, triples: seq<string>) {
    path in s.tap && s.tap[path].release in s.releases && s.releases[s.tap[path].release].tag != ""
    && IsManifestOf(s.tap[path].manifest, s.releases[s.tap[path].release].tag[1..], triples)
  }

  lemma PublishedDigestsAreBare(s: Store, sha: Bytes -> string, release: nat)
    requires Inv(s, sha) && IsOut(s, release)
    ensures s.releases[release].attested.Some? && AllBare(Digests(s.releases[release].attested.value.build))
  {
    hide AllBare, IsWarranted, IsExact, TagsAreSingle, NamesAreSingle, LatestIsNewest, TapIsRendered, IdsAreKnown;
  }

  lemma PlainPartIsFilledIn(s: Store, sha: Bytes -> string, release: nat, manifest: Manifest, triples: seq<string>, part: Part)
    requires release in s.releases && s.releases[release].tag != "" && !IsSlot(part.token)
    ensures IsFilledIn(s, sha, release, manifest, triples, part, part)
  {
    hide IsSlot;
  }
}
