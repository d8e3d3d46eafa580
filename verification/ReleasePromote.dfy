/** `promote` and `bump-formula`: from prerelease to latest, then the Homebrew tap
    (scripts/release-github.py). */
module ReleasePromote {
  import opened Texts
  import opened Sums
  import opened ReleaseBuild
  import opened ReleaseProtocol
  import opened ReleaseVersions
  import opened ReleaseSafety
  import opened ReleaseClient
  import opened ReleasePublish

  /** A file of the tap and the template it is rendered from, when that exists. */
  datatype TapTarget = TapTarget(path: string, template: Option<string>)

  datatype PutResult = Written | Conflict | Refused

  /** The log has only grown, by renderings of this release into the tap; nothing else differs. */
  ghost predicate OnlyWritesTap(before: Store, after: Store, grown: seq<Action>, log: seq<Action>, release: nat) {
    log <= grown && (forall i :: |log| <= i < |grown| ==> grown[i].WriteTap? && grown[i].release == release)
    && after == before.(tap := after.tap)
  }

  /** The PUT of a tap file, with the state of the file it replaces: GitHub refuses it when the file has
      moved on, which on a retry means that the lost attempt had been applied. */
  method PutTapFile(gh: GitHub, a: Action) returns (r: PutResult)
    requires gh.Valid() && a.WriteTap? && Guard(gh.store, gh.sha, a)
    modifies gh
    ensures gh.Valid()
    ensures (gh.store == old(gh.store) && gh.log == old(gh.log))
      || (gh.store == Next(old(gh.store), a) && gh.log == old(gh.log) + [a])
    ensures r == Written ==> gh.store == Next(old(gh.store), a)
    ensures r == Conflict ==> gh.store == Next(old(gh.store), a)
    ensures !gh.flaky ==> r == Written
  {
    hide Inv, Guard, Next, After, Lawful;
    var applied := false;
    var attempt := 0;
    while attempt < MAX_ATTEMPTS
      invariant gh.Valid() && 0 <= attempt <= MAX_ATTEMPTS
      invariant !applied ==> gh.store == old(gh.store) && gh.log == old(gh.log)
      invariant applied ==> gh.store == Next(old(gh.store), a) && gh.log == old(gh.log) + [a]
      invariant !gh.flaky ==> attempt == 0 && !applied
    {
      var reaches, answers, retryable := true, true, true;
      if gh.flaky {
        reaches, answers, retryable := *, *, *;
      }
      var conflicts := applied;
      if reaches && !applied {
        gh.Apply(a);
        applied := true;
      }
      if reaches && answers {
        return if conflicts then Conflict else Written;
      }
      if !retryable {
        return Refused;
      }
      attempt := attempt + 1;
    }
    r := Refused;
  }

  /** The text this release calls for in the tap. */
  ghost function TapText(s: Store, release: nat, template: string, manifest: Manifest): Option<string> {
    if IsOut(s, release) && s.releases[release].attested.Some?
    then RenderFormula(template, s.releases[release].tag, manifest, Digests(s.releases[release].attested.value.build))
    else None
  }

  lemma ServedSumsAreTheDigests(s: Store, sha: Bytes -> string, release: nat, id: nat)
    requires Inv(s, sha) && IsOut(s, release) && id in AssetsOf(s, release) && s.assets[id].name == SUMS
    ensures ReadSums(s.assets[id].content) ==
      if Digests(s.releases[release].attested.value.build) == map[] then None
      else Some(Digests(s.releases[release].attested.value.build))
  {
    hide SumsText, ReadSums;
    var build := s.releases[release].attested.value.build;
    assert IsAsBuilt(AssetsOf(s, release)[id], sha, build);
    SumsRoundTrip(Digests(build));
    EmptySumsAreRefused();
  }

  lemma EmptySumsAreRefused()
    ensures ReadSums(SumsText(map[])) == None
  {
    var none: map<string, string> := map[];
    assert Ascending(none.Keys) == [];
    assert SumsText(none) == "";
  }

  /** The tap holds what this release calls for at this target. */
  ghost predicate IsBumped(s: Store, release: nat, target: TapTarget, manifest: Manifest) {
    target.template.Some? && target.path in s.tap
    && Some(s.tap[target.path].text) == TapText(s, release, target.template.value, manifest)
  }

  /** There is a template, something to read from `SHA256SUMS`, and a rendering. */
  ghost predicate CanBeBumped(s: Store, release: nat, target: TapTarget, manifest: Manifest) {
    target.template.Some? && TapText(s, release, target.template.value, manifest).Some?
    && Digests(s.releases[release].attested.value.build) != map[]
  }

  lemma PublishedSumsAreThere(s: Store, sha: Bytes -> string, release: nat)
    requires Inv(s, sha) && IsOut(s, release)
    ensures |SumsIds(AssetsOf(s, release))| == 1
  {
    hide IsSound, IsAsBuilt, TagsAreSingle, LatestIsNewest, TapIsRendered, IdsAreKnown;
    HeldNamesDiffer(s, sha, release);
    OneSumsId(AssetsOf(s, release));
  }

  /** Reads the tap file and replaces it unless it is current, once more when it has moved on. */
  method PutRendering(gh: GitHub, a: Action) returns (done: bool)
    requires gh.Valid() && a.WriteTap? && Guard(gh.store, gh.sha, a)
    modifies gh
    ensures gh.Valid() && OnlyWritesTap(old(gh.store), gh.store, gh.log, old(gh.log), a.release)
    ensures gh.store.tap - {a.path} == old(gh.store).tap - {a.path}
    ensures done ==> a.path in gh.store.tap && gh.store.tap[a.path].text == a.text
    ensures !gh.flaky ==> done
  {
    hide Inv, After, Lawful, RenderFormula, VersionOf, IsExact;
    done := false;
    var attempt := 0;
    while attempt < 2
      invariant 0 <= attempt <= 2 && !done
      invariant gh.Valid() && OnlyWritesTap(old(gh.store), gh.store, gh.log, old(gh.log), a.release)
      invariant gh.store.tap - {a.path} == old(gh.store).tap - {a.path}
      invariant !gh.flaky ==> attempt == 0
    {
      var answered := gh.Ask();
      if !answered { return; }
      if a.path in gh.store.tap && gh.store.tap[a.path].text == a.text {
        return true;
      }
      var put := PutTapFile(gh, a);
      if put == Written {
        return true;
      }
      if put == Refused || attempt > 0 {
        return false;
      }
      attempt := attempt + 1;
    }
  }

  /** `bump_tap_file`. Best effort: it never fails the run, and it says whether the tap now holds the
      rendering of this release's own published hashes, which, when nothing fails, it does exactly when there
      is one. */
  method BumpTapFile(gh: GitHub, release: nat, tag: string, target: TapTarget, manifest: Manifest) returns (done: bool)
    requires gh.Valid() && gh.store.latest == Some(release) && IsOut(gh.store, release)
    requires gh.store.releases[release].tag == tag
    modifies gh
    ensures gh.Valid() && OnlyWritesTap(old(gh.store), gh.store, gh.log, old(gh.log), release)
    ensures gh.store.tap - {target.path} == old(gh.store).tap - {target.path}
    ensures done ==> IsBumped(gh.store, release, target, manifest)
    ensures !gh.flaky ==> (done <==> CanBeBumped(old(gh.store), release, target, manifest))
  {
    hide Inv, After, Lawful, RenderFormula, VersionOf, IsExact, SumsText, ReadSums, SumsIds, AssetsOf;
    done := false;
    if target.template.None? { return; }
    var answered := gh.Ask();
    if !answered { return; }
    var ids := SumsIds(AssetsOf(gh.store, release));
    PublishedSumsAreThere(gh.store, gh.sha, release);
    if |ids| != 1 { return; }
    var id :| id in ids;
    SumsIdIsServed(gh.store, release, id);
    answered := gh.Ask();
    if !answered { return; }
    ServedSumsAreTheDigests(gh.store, gh.sha, release, id);
    PublishedIsAttested(gh.store, gh.sha, release);
    var digests := ParseSums(gh.store.assets[id].content);
    if digests.None? { return; }
    var rendered := RenderFormula(target.template.value, tag, manifest, digests.value);
    if rendered.None? { return; }
    done := PutRendering(gh, WriteTap(target.path, release, target.template.value, manifest, rendered.value));
  }

  lemma SumsIdIsServed(s: Store, release: nat, id: nat)
    requires id in SumsIds(AssetsOf(s, release))
    ensures id in AssetsOf(s, release) && id in s.assets && s.assets[id].name == SUMS
  {
  }

  lemma PublishedIsAttested(s: Store, sha: Bytes -> string, release: nat)
    requires Inv(s, sha) && IsOut(s, release)
    ensures s.releases[release].attested.Some?
  {
    hide AssetsOf, VersionOf, IsExact, AllBare;
  }

  // ----- the two runs

  datatype PromoteResult = Latest(release: nat) | Superseded(release: nat) | NotPromoted

  /** The published release of a tag. */
  method PublishedRelease(gh: GitHub, tag: string) returns (r: Option<nat>)
    requires gh.Valid()
    ensures r.Some? ==> IsOut(gh.store, r.value) && gh.store.releases[r.value].tag == tag
    ensures !gh.flaky ==> (r.None? <==> NonePublished(gh.store, tag))
  {
    r := None;
    var answered := gh.Ask();
    if answered && !NonePublished(gh.store, tag) {
      var release :| release in gh.store.releases && gh.store.releases[release].tag == tag
        && gh.store.releases[release].phase != Draft;
      r := Some(release);
    }
  }

  /** The one release at `/releases/latest` is this one. */
  predicate IsLatest(s: Store, release: nat) {
    s.latest == Some(release)
  }

  /** The log has only grown, by promoting this tag at most. */
  ghost predicate OnlyPromotes(before: seq<Action>, after: seq<Action>, tag: string) {
    before <= after && forall i :: |before| <= i < |after| ==> after[i].Promote? && after[i].tag == tag
  }

  /** A complete published release of the tag, either latest already, or a prerelease no newer release
      stands before. */
  ghost predicate MayBecomeLatest(s: Store, release: nat, tag: string, manifest: Manifest) {
    IsOut(s, release) && s.releases[release].tag == tag && IsRightSet(AssetsOf(s, release), manifest.all, map[])
    && if s.releases[release].phase == Prerelease then s.latest.Some? ==> IsAtLeast(tag, TagIn(s, s.latest.value))
       else IsLatest(s, release)
  }

  lemma OneReleaseIsOut(s: Store, sha: Bytes -> string, release: nat, tag: string)
    requires Inv(s, sha) && IsOut(s, release) && s.releases[release].tag == tag
    ensures VersionOf(tag).Some?
    ensures forall r :: IsOut(s, r) && s.releases[r].tag == tag ==> r == release
    ensures s.releases[release].phase == Prerelease ==> s.latest != Some(release)
  {
    hide PublishedIsExact, NamesAreSingle, TapIsRendered, IdsAreKnown, VersionOf;
  }

  lemma LatestInNumbers(s: Store, sha: Bytes -> string, tag: string)
    requires Inv(s, sha) && VersionOf(tag).Some?
    ensures NothingNewerIsLatest(s, VersionOf(tag)) <==> (s.latest.Some? ==> IsAtLeast(tag, TagIn(s, s.latest.value)))
    ensures IsAtLeast(tag, tag)
  {
    hide Inv, VersionOf, IsAtLeast, Newer;
    ServedReleasesAreVersions(s, sha, "");
    if s.latest.Some? {
      OnlyANewerOneStandsBefore(s, tag);
    }
    NewerIsAnOrder(VersionOf(tag).value, VersionOf(tag).value, VersionOf(tag).value);
    NotNewerIsAtLeast(tag, tag);
  }

  /** Reads `/releases/latest` until it is this release, four times at most. */
  method WaitForLatest(gh: GitHub, release: nat) returns (seen: Option<bool>)
    ensures seen.Some? ==> seen.value == IsLatest(gh.store, release)
    ensures !gh.flaky ==> seen.Some?
  {
    var attempt := 1;
    while attempt < 5
      invariant 1 <= attempt <= 5
      invariant attempt == 5 ==> !IsLatest(gh.store, release)
    {
      var answered := gh.Ask();
      if !answered {
        return None;
      }
      if IsLatest(gh.store, release) {
        return Some(true);
      }
      attempt := attempt + 1;
    }
    seen := Some(false);
  }

  /** `promote`, up to the tap. The release becomes latest, or a newer one already is; a newer latest is
      never replaced. */
  method MakeLatest(gh: GitHub, tag: string, manifest: Manifest) returns (r: PromoteResult)
    requires gh.Valid()
    modifies gh
    ensures gh.Valid()
    ensures OnlyPromotes(old(gh.log), gh.log, tag)
    ensures gh.log == old(gh.log) ==> gh.store == old(gh.store)
    ensures gh.store.tap == old(gh.store).tap
    ensures !r.NotPromoted? ==> r.release in gh.store.releases && gh.store.releases[r.release].tag == tag
    ensures !r.NotPromoted? ==> gh.store.releases[r.release].phase == Promoted
    ensures r.Latest? ==> IsLatest(gh.store, r.release)
    ensures r.Latest? && old(gh.store).latest.Some? ==>
      IsAtLeast(tag, TagIn(old(gh.store), old(gh.store).latest.value))
    ensures r.Superseded? ==>
      gh.store.latest.Some? && !IsAtLeast(tag, TagIn(gh.store, gh.store.latest.value))
    ensures !gh.flaky ==> (r.Latest? <==> exists release :: MayBecomeLatest(old(gh.store), release, tag, manifest))
  {
    hide Inv, After, Lawful, RenderFormula, VersionOf, IsExact, IsRightSet, IsAtLeast, NothingNewerIsLatest;
    r := NotPromoted;
    if exists release :: MayBecomeLatest(gh.store, release, tag, manifest) {
      ghost var release :| MayBecomeLatest(gh.store, release, tag, manifest);
      OneReleaseIsOut(gh.store, gh.sha, release, tag);
    }
    if VersionOf(tag).None? { return; }
    var found := PublishedRelease(gh, tag);
    if found.None? { return; }
    var release := found.value;
    OneReleaseIsOut(gh.store, gh.sha, release, tag);
    LatestInNumbers(gh.store, gh.sha, tag);
    var answered := gh.Ask();
    if !answered { return; }
    var right := AssetSetIsRight(AssetsOf(gh.store, release), manifest.all, map[]);
    if !right { return; }
    if gh.store.releases[release].phase == Prerelease {
      answered := gh.Ask();
      if !answered { return; }
      if !NothingNewerIsLatest(gh.store, VersionOf(tag)) { return; }
      answered := gh.Send(Promote(release, tag), true);
      if !answered { return; }
    }
    var seen := WaitForLatest(gh, release);
    if seen.None? { return; }
    if seen.value {
      assert MayBecomeLatest(old(gh.store), release, tag, manifest);
      return Latest(release);
    }
    if gh.store.latest.Some? && !NothingNewerIsLatest(gh.store, VersionOf(tag)) {
      LatestInNumbers(gh.store, gh.sha, tag);
      r := Superseded(release);
    }
  }

  ghost predicate IsPromotedLatest(s: Store, release: nat, tag: string) {
    IsOut(s, release) && s.releases[release].tag == tag && s.releases[release].phase == Promoted
    && IsLatest(s, release)
  }

  /** No later target is of the same file. */
  predicate IsLastOfItsFile(targets: seq<TapTarget>, i: int) {
    0 <= i < |targets| && forall j :: i < j < |targets| ==> targets[j].path != targets[i].path
  }

  /** The tap holds what the release calls for at each file's last target that `which` names. */
  ghost predicate AreBumped(s: Store, before: Store, release: nat, targets: seq<TapTarget>, manifest: Manifest, every: bool) {
    forall i :: IsLastOfItsFile(targets, i) && (every || CanBeBumped(before, release, targets[i], manifest)) ==>
      IsBumped(s, release, targets[i], manifest)
  }

  /** Where no two targets are of one file, all of them are bumped. */
  lemma EveryTargetIsBumped(s: Store, before: Store, release: nat, targets: seq<TapTarget>, manifest: Manifest, t: TapTarget)
    requires AreBumped(s, before, release, targets, manifest, true) && t in targets
    requires forall i, j :: 0 <= i < j < |targets| ==> targets[i].path != targets[j].path
    ensures IsBumped(s, release, t, manifest)
  {
    hide IsBumped, CanBeBumped;
    var i :| 0 <= i < |targets| && targets[i] == t;
    assert IsLastOfItsFile(targets, i);
  }

  /** Every target in turn; one failing does not stop the next. */
  method BumpAll(gh: GitHub, release: nat, tag: string, targets: seq<TapTarget>, manifest: Manifest) returns (all: bool)
    requires gh.Valid() && gh.store.latest == Some(release) && IsOut(gh.store, release)
    requires gh.store.releases[release].tag == tag
    modifies gh
    ensures gh.Valid() && OnlyWritesTap(old(gh.store), gh.store, gh.log, old(gh.log), release)
    ensures all ==> AreBumped(gh.store, old(gh.store), release, targets, manifest, true)
    ensures !gh.flaky ==> AreBumped(gh.store, old(gh.store), release, targets, manifest, false)
    ensures !gh.flaky ==> (all <==> forall t :: t in targets ==> CanBeBumped(old(gh.store), release, t, manifest))
  {
    hide Inv, After, Lawful, CanBeBumped, IsBumped, AreBumped;
    all := true;
    NoTargets(gh.store, release, manifest);
    assert targets[..0] == [];
    var i := 0;
    while i < |targets|
      invariant 0 <= i <= |targets|
      invariant gh.Valid() && OnlyWritesTap(old(gh.store), gh.store, gh.log, old(gh.log), release)
      invariant all ==> AreBumped(gh.store, old(gh.store), release, targets[..i], manifest, true)
      invariant !gh.flaky ==> AreBumped(gh.store, old(gh.store), release, targets[..i], manifest, false)
      invariant !gh.flaky ==> (all <==> forall t :: t in targets[..i] ==> CanBeBumped(old(gh.store), release, t, manifest))
    {
      ghost var before, was := gh.store, all;
      var done := BumpTapFile(gh, release, tag, targets[i], manifest);
      all := all && done;
      assert targets[..i + 1] == targets[..i] + [targets[i]];
      SameRendering(old(gh.store), before, release, targets[i], manifest);
      if was {
        OneMoreTarget(before, gh.store, old(gh.store), release, targets[..i], targets[i], manifest, true, done);
      }
      if !gh.flaky {
        OneMoreTarget(before, gh.store, old(gh.store), release, targets[..i], targets[i], manifest, false, done);
      }
      i := i + 1;
    }
    assert targets[..i] == targets;
  }

  lemma NoTargets(s: Store, release: nat, manifest: Manifest)
    ensures AreBumped(s, s, release, [], manifest, true) && AreBumped(s, s, release, [], manifest, false)
  {
  }

  /** Whether a target can be bumped does not depend on the tap. */
  lemma SameRendering(a: Store, b: Store, release: nat, target: TapTarget, manifest: Manifest)
    requires b == a.(tap := b.tap)
    ensures CanBeBumped(a, release, target, manifest) <==> CanBeBumped(b, release, target, manifest)
  {
    hide RenderFormula, Digests;
    assert b.releases == a.releases && (IsOut(b, release) <==> IsOut(a, release));
    if target.template.Some? {
      assert TapText(b, release, target.template.value, manifest) == TapText(a, release, target.template.value, manifest);
    }
  }

  lemma OneMoreTarget(before: Store, after: Store, first: Store, release: nat, targets: seq<TapTarget>, target: TapTarget,
                      manifest: Manifest, every: bool, done: bool)
    requires AreBumped(before, first, release, targets, manifest, every)
    requires after == before.(tap := after.tap) && after.tap - {target.path} == before.tap - {target.path}
    requires done ==> IsBumped(after, release, target, manifest)
    requires every || !CanBeBumped(first, release, target, manifest) || done
    ensures !every || done ==> AreBumped(after, first, release, targets + [target], manifest, every)
  {
    hide RenderFormula, CanBeBumped;
    var all := targets + [target];
    forall i | (!every || done) && IsLastOfItsFile(all, i) && (every || CanBeBumped(first, release, all[i], manifest))
      ensures IsBumped(after, release, all[i], manifest)
    {
      if i < |targets| {
        assert all[|targets|] == target && all[i] == targets[i];
        assert forall j :: i < j < |targets| ==> all[j] == targets[j];
        assert IsLastOfItsFile(targets, i) && IsBumped(before, release, targets[i], manifest);
        assert targets[i].path in before.tap - {target.path};
        assert after.tap[targets[i].path] == (after.tap - {target.path})[targets[i].path];
      }
    }
  }

  /** `promote` */
  method RunPromote(gh: GitHub, tag: string, manifest: Manifest, targets: seq<TapTarget>, skipFormula: bool)
    returns (r: PromoteResult)
    requires gh.Valid()
    modifies gh
    ensures gh.Valid()
    ensures r.Latest? ==> IsPromotedLatest(gh.store, r.release, tag)
    ensures !gh.flaky ==> (r.Latest? <==> exists release :: MayBecomeLatest(old(gh.store), release, tag, manifest))
    ensures gh.store.tap != old(gh.store).tap ==> r.Latest? && !skipFormula
    ensures !gh.flaky && r.Latest? && !skipFormula ==>
      AreBumped(gh.store, gh.store, r.release, targets, manifest, false)
  {
    hide Inv, After, Lawful, MayBecomeLatest, AreBumped;
    r := MakeLatest(gh, tag, manifest);
    if r.Latest? && !skipFormula {
      ghost var before := gh.store;
      var _ := BumpAll(gh, r.release, tag, targets, manifest);
      if !gh.flaky {
        SameTargets(before, gh.store, r.release, targets, manifest);
      }
    }
  }

  lemma SameTargets(before: Store, after: Store, release: nat, targets: seq<TapTarget>, manifest: Manifest)
    requires after == before.(tap := after.tap) && AreBumped(after, before, release, targets, manifest, false)
    ensures AreBumped(after, after, release, targets, manifest, false)
  {
    hide CanBeBumped, IsBumped;
    forall i | IsLastOfItsFile(targets, i) && CanBeBumped(after, release, targets[i], manifest)
      ensures IsBumped(after, release, targets[i], manifest)
    {
      SameRendering(before, after, release, targets[i], manifest);
    }
  }

  ghost predicate AllCanBeBumped(s: Store, release: nat, targets: seq<TapTarget>, manifest: Manifest) {
    forall t :: t in targets ==> CanBeBumped(s, release, t, manifest)
  }

  /** `bump-formula`: only a promoted release that is latest is rendered into the tap. */
  method RunBumpFormula(gh: GitHub, tag: string, manifest: Manifest, targets: seq<TapTarget>) returns (ok: bool)
    requires gh.Valid()
    modifies gh
    ensures gh.Valid()
    ensures (gh.store == old(gh.store) && gh.log == old(gh.log))
      || exists release :: IsPromotedLatest(old(gh.store), release, tag)
                           && OnlyWritesTap(old(gh.store), gh.store, gh.log, old(gh.log), release)
    ensures ok ==> exists release :: IsPromotedLatest(gh.store, release, tag)
                                     && AreBumped(gh.store, old(gh.store), release, targets, manifest, true)
    ensures !gh.flaky ==> (ok <==> exists release :: IsPromotedLatest(old(gh.store), release, tag)
                                                     && AllCanBeBumped(old(gh.store), release, targets, manifest))
  {
    hide Inv, After, Lawful, AreBumped, CanBeBumped, VersionOf;
    ok := false;
    if exists release :: IsPromotedLatest(gh.store, release, tag) {
      ghost var release :| IsPromotedLatest(gh.store, release, tag);
      OneReleaseIsOut(gh.store, gh.sha, release, tag);
    }
    if VersionOf(tag).None? { return; }
    var found := PublishedRelease(gh, tag);
    if found.None? || gh.store.releases[found.value].phase == Prerelease { return; }
    var answered := gh.Ask();
    if !answered || !IsLatest(gh.store, found.value) { return; }
    assert IsPromotedLatest(gh.store, found.value, tag);
    ok := BumpAll(gh, found.value, tag, targets, manifest);
  }
}
