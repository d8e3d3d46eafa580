/** What holds over every run of the release protocol: any number of `publish`, `promote` and
    `bump-formula` runs, one after another, each stopping wherever it stops. A stopped run is a prefix
    of its log, and the next run goes on from the store that prefix leaves. */
module ReleaseSafety {
  import opened Texts
  import opened Sums
  import opened ReleaseBuild
  import opened ReleaseProtocol
  import opened ReleaseVersions

  // ----- logs

  ghost function After(s: Store, log: seq<Action>): Store {
    if log == [] then s else Next(After(s, log[..|log| - 1]), log[|log| - 1])
  }

  /** Every request was sent under its guard. */
  ghost predicate Lawful(s: Store, sha: Bytes -> string, log: seq<Action>) {
    log == [] || (Lawful(s, sha, log[..|log| - 1]) && Guard(After(s, log[..|log| - 1]), sha, log[|log| - 1]))
  }

  lemma OneMore(s: Store, sha: Bytes -> string, log: seq<Action>, a: Action)
    requires Lawful(s, sha, log) && Guard(After(s, log), sha, a)
    ensures Lawful(s, sha, log + [a]) && After(s, log + [a]) == Next(After(s, log), a)
  {
    assert (log + [a])[..|log + [a]| - 1] == log;
  }

  /** A run that starts where others stopped: their requests followed by its own are one log. */
  lemma {:induction false} RunsJoin(s: Store, sha: Bytes -> string, a: seq<Action>, b: seq<Action>)
    requires Lawful(s, sha, a) && Lawful(After(s, a), sha, b)
    ensures Lawful(s, sha, a + b) && After(s, a + b) == After(After(s, a), b)
  {
    hide Guard, Next;
    if b == [] {
      assert a + b == a;
    } else {
      assert (a + b)[..|a + b| - 1] == a + b[..|b| - 1];
      RunsJoin(s, sha, a, b[..|b| - 1]);
    }
  }

  // ----- the invariant

  ghost predicate IdsAreKnown(s: Store) {
    (forall r :: r in s.releases ==> r < s.nextId)
    && (forall id :: id in s.assets ==> id < s.nextId && s.assets[id].release in s.releases)
  }

  predicate IsOut(s: Store, r: nat) {
    r in s.releases && s.releases[r].phase != Draft
  }

  /** At most one release of a tag is out of draft, and its tag is a version that exists. */
  ghost predicate TagsAreSingle(s: Store) {
    (forall r, t :: IsOut(s, r) && IsOut(s, t) && s.releases[r].tag == s.releases[t].tag ==> r == t)
    && (forall r :: IsOut(s, r) ==> s.releases[r].tag in s.tags && VersionOf(s.releases[r].tag).Some?)
  }

  /** At most one release per tag, drafts included. GitHub itself allows several drafts. */
  ghost predicate OneReleasePerTag(s: Store) {
    forall r, t :: r in s.releases && t in s.releases && s.releases[r].tag == s.releases[t].tag ==> r == t
  }

  /** No release holds two assets of one name. */
  ghost predicate NamesAreSingle(s: Store) {
    forall i, j ::
      (i in s.assets && j in s.assets && s.assets[i].release == s.assets[j].release && s.assets[i].name == s.assets[j].name)
      ==> i == j
  }

  /** A build proved from a run's own artifacts, of the commit they were made from, whose digests can be
      written to `SHA256SUMS` and read back. */
  ghost predicate IsSound(s: Store, sha: Bytes -> string, tag: string, a: Attestation) {
    IsWarranted(a.warrant, sha, a.build) && AllBare(Digests(a.build)) && IsFor(s, tag, a.warrant.commit)
  }

  /** Whatever users can see is exactly one sound build. */
  ghost predicate PublishedIsExact(s: Store, sha: Bytes -> string) {
    forall r :: IsOut(s, r) ==>
      s.releases[r].attested.Some? && IsSound(s, sha, s.releases[r].tag, s.releases[r].attested.value)
      && IsExact(AssetsOf(s, r), sha, s.releases[r].attested.value.build)
  }

  function VersionIn(s: Store, r: nat): Version {
    if r in s.releases && VersionOf(s.releases[r].tag).Some? then VersionOf(s.releases[r].tag).value
    else Version(0, 0, 0)
  }

  /** `latest` is a promoted release, and no promoted release is newer. */
  ghost predicate LatestIsNewest(s: Store) {
    (s.latest.Some? ==> s.latest.value in s.releases && s.releases[s.latest.value].phase == Promoted)
    && (forall r :: r in s.releases && s.releases[r].phase == Promoted ==>
          s.latest.Some? && !Newer(VersionIn(s, r), VersionIn(s, s.latest.value)))
  }

  /** Every tap file is the rendering of a promoted release's own digests. */
  ghost predicate TapIsRendered(s: Store) {
    forall path :: path in s.tap ==>
      var f := s.tap[path];
      f.release in s.releases && s.releases[f.release].phase == Promoted && s.releases[f.release].attested.Some?
      && RenderFormula(f.template, s.releases[f.release].tag, f.manifest,
                       Digests(s.releases[f.release].attested.value.build)) == Some(f.text)
  }

  ghost predicate Inv(s: Store, sha: Bytes -> string) {
    IdsAreKnown(s) && TagsAreSingle(s) && NamesAreSingle(s) && PublishedIsExact(s, sha)
    && LatestIsNewest(s) && TapIsRendered(s)
  }

  /** A repository without releases. */
  predicate IsEmpty(s: Store) {
    s.releases == map[] && s.assets == map[] && s.latest == None && s.tap == map[]
  }

  // ----- one request keeps it

  /** Which releases' assets a request can touch: none that users can see. */
  lemma OnlyDraftsChange(s: Store, sha: Bytes -> string, a: Action, r: nat)
    requires IdsAreKnown(s) && Guard(s, sha, a)
    requires IsOut(s, r)
    ensures AssetsOf(Next(s, a), r) == AssetsOf(s, r)
    ensures r in Next(s, a).releases
    ensures var now, was := Next(s, a).releases[r], s.releases[r];
      now.tag == was.tag && now.attested == was.attested && now.phase != Draft
      && (was.phase == Promoted ==> now.phase == Promoted)
  {
    hide VersionOf, RenderFormula, IsExact, IsWarranted, AllBare, NothingNewerIsLatest;
    match a
    case Create(_) => assert AssetsOf(Next(s, a), r) == AssetsOf(s, r);
    case Remove(id) => assert AssetsOf(Next(s, a), r) == AssetsOf(s, r);
    case Record(release, _, _, _) => assert AssetsOf(Next(s, a), r) == AssetsOf(s, r);
    case Flip(_, _, _, _) => assert AssetsOf(Next(s, a), r) == AssetsOf(s, r);
    case Promote(_, _) => assert AssetsOf(Next(s, a), r) == AssetsOf(s, r);
    case WriteTap(_, _, _, _, _) => assert AssetsOf(Next(s, a), r) == AssetsOf(s, r);
  }

  lemma IdsAreKept(s: Store, sha: Bytes -> string, a: Action)
    requires IdsAreKnown(s) && Guard(s, sha, a)
    ensures IdsAreKnown(Next(s, a))
  {
    hide VersionOf, RenderFormula, IsExact, IsWarranted, AllBare, NothingNewerIsLatest;
  }

  lemma TagsAreKept(s: Store, sha: Bytes -> string, a: Action)
    requires IdsAreKnown(s) && TagsAreSingle(s) && Guard(s, sha, a)
    ensures TagsAreSingle(Next(s, a))
  {
    hide VersionOf, RenderFormula, IsExact, IsWarranted, AllBare, NothingNewerIsLatest, NoneNamed;
  }

  lemma OneReleasePerTagIsKept(s: Store, sha: Bytes -> string, a: Action)
    requires OneReleasePerTag(s) && Guard(s, sha, a)
    ensures OneReleasePerTag(Next(s, a))
  {
    hide VersionOf, RenderFormula, IsExact, IsWarranted, AllBare, NothingNewerIsLatest, NoneNamed;
  }

  lemma NamesAreKept(s: Store, sha: Bytes -> string, a: Action)
    requires IdsAreKnown(s) && NamesAreSingle(s) && Guard(s, sha, a)
    ensures NamesAreSingle(Next(s, a))
  {
    hide VersionOf, RenderFormula, IsExact, IsWarranted, AllBare, NothingNewerIsLatest;
  }

  lemma ExactIsKept(s: Store, sha: Bytes -> string, a: Action)
    requires IdsAreKnown(s) && PublishedIsExact(s, sha) && Guard(s, sha, a)
    ensures PublishedIsExact(Next(s, a), sha)
  {
    hide VersionOf, RenderFormula, IsExact, IsWarranted, AllBare, NothingNewerIsLatest, NoneNamed;
    var n := Next(s, a);
    forall r | IsOut(n, r)
      ensures n.releases[r].attested.Some? && IsSound(n, sha, n.releases[r].tag, n.releases[r].attested.value)
      ensures IsExact(AssetsOf(n, r), sha, n.releases[r].attested.value.build)
    {
      if IsOut(s, r) {
        OnlyDraftsChange(s, sha, a, r);
      } else {
        assert a.Flip? && a.release == r;
        assert AssetsOf(n, r) == AssetsOf(s, r);
      }
    }
  }

  lemma LatestIsKept(s: Store, sha: Bytes -> string, a: Action)
    requires IdsAreKnown(s) && TagsAreSingle(s) && LatestIsNewest(s) && Guard(s, sha, a)
    ensures LatestIsNewest(Next(s, a))
  {
    hide VersionOf, RenderFormula, IsExact, IsWarranted, NoneNamed;
    var n := Next(s, a);
    forall r | r in n.releases && n.releases[r].phase == Promoted
      ensures n.latest.Some? && !Newer(VersionIn(n, r), VersionIn(n, n.latest.value))
    {
      if r in s.releases && s.releases[r].phase == Promoted {
        assert s.latest.Some? && !Newer(VersionIn(s, r), VersionIn(s, s.latest.value));
        assert VersionIn(n, r) == VersionIn(s, r);
      }
    }
  }

  lemma TapIsKept(s: Store, sha: Bytes -> string, a: Action)
    requires IdsAreKnown(s) && LatestIsNewest(s) && TapIsRendered(s) && Guard(s, sha, a)
    ensures TapIsRendered(Next(s, a))
  {
    hide VersionOf, RenderFormula, IsExact, IsWarranted, AllBare, NothingNewerIsLatest, NoneNamed;
  }

  lemma NextKeeps(s: Store, sha: Bytes -> string, a: Action)
    requires Inv(s, sha) && Guard(s, sha, a)
    ensures Inv(Next(s, a), sha)
  {
    hide Guard, Next, IdsAreKnown, TagsAreSingle, NamesAreSingle, PublishedIsExact, LatestIsNewest, TapIsRendered;
    IdsAreKept(s, sha, a);
    TagsAreKept(s, sha, a);
    NamesAreKept(s, sha, a);
    ExactIsKept(s, sha, a);
    LatestIsKept(s, sha, a);
    TapIsKept(s, sha, a);
  }

  // ----- over every run

  /** Safety over all runs: from a repository without releases, after any requests of any runs, every
      release out of draft holds exactly its build. */
  lemma {:induction false} EveryRunIsSafe(s: Store, sha: Bytes -> string, log: seq<Action>)
    requires Inv(s, sha) && Lawful(s, sha, log)
    ensures Inv(After(s, log), sha)
  {
    if log != [] {
      EveryRunIsSafe(s, sha, log[..|log| - 1]);
      NextKeeps(After(s, log[..|log| - 1]), sha, log[|log| - 1]);
    }
  }

  /** At most one draft of a tag ever exists: no run makes a second release of one. */
  lemma {:induction false} NoSecondDraft(s: Store, sha: Bytes -> string, log: seq<Action>)
    requires OneReleasePerTag(s) && Lawful(s, sha, log)
    ensures OneReleasePerTag(After(s, log))
  {
    hide Guard, Next, OneReleasePerTag;
    if log != [] {
      NoSecondDraft(s, sha, log[..|log| - 1]);
      OneReleasePerTagIsKept(After(s, log[..|log| - 1]), sha, log[|log| - 1]);
    }
  }

  lemma EmptyIsSafe(s: Store, sha: Bytes -> string)
    requires IsEmpty(s)
    ensures Inv(s, sha) && OneReleasePerTag(s)
  {
    hide VersionOf, RenderFormula, IsExact, IsWarranted;
  }

  /** Stopping anywhere is itself a run: every prefix of a lawful log is lawful. */
  lemma {:induction false} StoppedRunsAreLawful(s: Store, sha: Bytes -> string, log: seq<Action>, k: nat)
    requires Lawful(s, sha, log) && k <= |log|
    ensures Lawful(s, sha, log[..k])
  {
    if k < |log| {
      StoppedRunsAreLawful(s, sha, log[..|log| - 1], k);
      assert log[..|log| - 1][..k] == log[..k];
    } else {
      assert log[..k] == log;
    }
  }

  /** Forward only: once a release is out of draft, no later request of any run changes or deletes one
      of its assets, hides it again, or demotes it. */
  lemma {:induction false} PublishedStaysPublished(s: Store, sha: Bytes -> string, log: seq<Action>, k: nat, r: nat)
    requires Inv(s, sha) && Lawful(s, sha, log) && k <= |log|
    requires IsOut(After(s, log[..k]), r)
    ensures var early, late := After(s, log[..k]), After(s, log);
      IsOut(late, r) && AssetsOf(late, r) == AssetsOf(early, r)
      && late.releases[r].tag == early.releases[r].tag && late.releases[r].attested == early.releases[r].attested
      && (early.releases[r].phase == Promoted ==> late.releases[r].phase == Promoted)
    decreases |log|
  {
    if k == |log| {
      assert log[..k] == log;
    } else {
      var most := log[..|log| - 1];
      assert most[..k] == log[..k];
      PublishedStaysPublished(s, sha, most, k, r);
      EveryRunIsSafe(s, sha, most);
      OnlyDraftsChange(After(s, most), sha, log[|log| - 1], r);
    }
  }

  /** Neither `latest` nor this tap file has moved to an older version. */
  ghost predicate NotGoneBack(early: Store, late: Store, path: string) {
    (early.latest.Some? ==>
       late.latest.Some? && !Newer(VersionIn(early, early.latest.value), VersionIn(late, late.latest.value)))
    && (path in early.tap ==>
          path in late.tap && !Newer(VersionIn(early, early.tap[path].release), VersionIn(late, late.tap[path].release)))
  }

  lemma VersionsAreKept(s: Store, sha: Bytes -> string, a: Action, r: nat)
    requires IdsAreKnown(s) && Guard(s, sha, a) && r in s.releases
    ensures VersionIn(Next(s, a), r) == VersionIn(s, r)
  {
    hide VersionOf, RenderFormula, IsExact, IsWarranted, AllBare, NoneNamed, NothingNewerIsLatest;
  }

  lemma LatestDoesNotGoBack(s: Store, sha: Bytes -> string, a: Action)
    requires IdsAreKnown(s) && TagsAreSingle(s) && LatestIsNewest(s) && Guard(s, sha, a)
    ensures s.latest.Some? ==> Next(s, a).latest.Some?
    ensures s.latest.Some? ==> !Newer(VersionIn(s, s.latest.value), VersionIn(Next(s, a), Next(s, a).latest.value))
  {
    hide VersionOf, RenderFormula, IsExact, IsWarranted, AllBare, NoneNamed;
    if s.latest.Some? {
      VersionsAreKept(s, sha, a, s.latest.value);
      if a.Promote? {
        VersionsAreKept(s, sha, a, a.release);
        assert IsOut(s, s.latest.value);
      }
    }
  }

  lemma TapDoesNotGoBack(s: Store, sha: Bytes -> string, a: Action, path: string)
    requires IdsAreKnown(s) && LatestIsNewest(s) && TapIsRendered(s) && Guard(s, sha, a) && path in s.tap
    ensures path in Next(s, a).tap
    ensures !Newer(VersionIn(s, s.tap[path].release), VersionIn(Next(s, a), Next(s, a).tap[path].release))
  {
    hide VersionOf, VersionIn, RenderFormula, IsExact, IsWarranted, AllBare, NoneNamed, NothingNewerIsLatest;
    VersionsAreKept(s, sha, a, s.tap[path].release);
    if s.latest.Some? {
      VersionsAreKept(s, sha, a, s.latest.value);
    }
  }

  lemma NextNeverGoesBack(s: Store, sha: Bytes -> string, a: Action, path: string)
    requires Inv(s, sha) && Guard(s, sha, a)
    ensures NotGoneBack(s, Next(s, a), path)
    ensures path in Next(s, a).tap && (path !in s.tap || Next(s, a).tap[path] != s.tap[path]) ==>
      s.latest == Some(Next(s, a).tap[path].release)
  {
    hide VersionOf, VersionIn, RenderFormula, IsExact, IsWarranted, AllBare, NoneNamed, NothingNewerIsLatest, PublishedIsExact,
         NamesAreSingle, IdsAreKnown, TapIsRendered, TagsAreSingle, LatestIsNewest;
    LatestDoesNotGoBack(s, sha, a);
    if path in s.tap {
      TapDoesNotGoBack(s, sha, a, path);
    }
  }

  lemma {:induction false} NothingIsReplacedByOlder(s: Store, sha: Bytes -> string, log: seq<Action>, k: nat, path: string)
    requires Inv(s, sha) && Lawful(s, sha, log) && k <= |log|
    ensures NotGoneBack(After(s, log[..k]), After(s, log), path)
    decreases |log|
  {
    hide Guard, Next, Inv, VersionIn;
    if k == |log| {
      assert log[..k] == log;
    } else {
      var most := log[..|log| - 1];
      assert most[..k] == log[..k];
      NothingIsReplacedByOlder(s, sha, most, k, path);
      EveryRunIsSafe(s, sha, most);
      NextNeverGoesBack(After(s, most), sha, log[|log| - 1], path);
    }
  }

  function TagIn(s: Store, r: nat): string {
    if r in s.releases then s.releases[r].tag else ""
  }

  /** A release that is latest, and one that a tap file was rendered for, is of a version. */
  lemma ServedReleasesAreVersions(s: Store, sha: Bytes -> string, path: string)
    requires Inv(s, sha)
    ensures s.latest.Some? ==> s.latest.value in s.releases && VersionOf(TagIn(s, s.latest.value)).Some?
    ensures path in s.tap ==> s.tap[path].release in s.releases && VersionOf(TagIn(s, s.tap[path].release)).Some?
  {
    hide VersionOf, RenderFormula, PublishedIsExact, NamesAreSingle, IdsAreKnown;
    assert s.latest.Some? ==> IsOut(s, s.latest.value);
    assert path in s.tap ==> IsOut(s, s.tap[path].release);
  }

  /** Promotion never goes backwards: the numbers in the tag at `/releases/latest`, and in the tag each tap file
      was rendered for, never decrease, the major number counting most and the patch least. */
  lemma NothingGoesBack(s: Store, sha: Bytes -> string, log: seq<Action>, k: nat, path: string)
    requires Inv(s, sha) && Lawful(s, sha, log) && k <= |log|
    ensures var early, late := After(s, log[..k]), After(s, log);
      (early.latest.Some? ==>
         late.latest.Some? && IsAtLeast(TagIn(late, late.latest.value), TagIn(early, early.latest.value)))
      && (path in early.tap ==>
            path in late.tap && IsAtLeast(TagIn(late, late.tap[path].release), TagIn(early, early.tap[path].release)))
  {
    hide Inv, After, Lawful, VersionOf, IsAtLeast, Newer;
    var early, late := After(s, log[..k]), After(s, log);
    NothingIsReplacedByOlder(s, sha, log, k, path);
    StoppedRunsAreLawful(s, sha, log, k);
    EveryRunIsSafe(s, sha, log[..k]);
    EveryRunIsSafe(s, sha, log);
    ServedReleasesAreVersions(early, sha, path);
    ServedReleasesAreVersions(late, sha, path);
    if early.latest.Some? {
      NotNewerIsAtLeast(TagIn(late, late.latest.value), TagIn(early, early.latest.value));
    }
    if path in early.tap {
      NotNewerIsAtLeast(TagIn(late, late.tap[path].release), TagIn(early, early.tap[path].release));
    }
  }

  /** The tap is written only for the release that is then latest. */
  lemma TapFollowsLatest(s: Store, sha: Bytes -> string, log: seq<Action>, k: nat, path: string)
    requires Inv(s, sha) && Lawful(s, sha, log) && k < |log|
    requires var before, after := After(s, log[..k]), After(s, log[..k + 1]);
      path in after.tap && (path !in before.tap || after.tap[path] != before.tap[path])
    ensures After(s, log[..k]).latest == Some(After(s, log[..k + 1]).tap[path].release)
  {
    assert log[..k + 1][..|log[..k + 1]| - 1] == log[..k];
    StoppedRunsAreLawful(s, sha, log, k + 1);
    StoppedRunsAreLawful(s, sha, log, k);
    EveryRunIsSafe(s, sha, log[..k]);
    NextNeverGoesBack(After(s, log[..k]), sha, log[k], path);
  }

  /** The digests in a tap file are those of the bytes its release serves, and they are what reading the
      release's own `SHA256SUMS` yields. */
  lemma TapCarriesPublishedHashes(s: Store, sha: Bytes -> string, path: string, id: nat)
    requires Inv(s, sha) && path in s.tap
    requires id in AssetsOf(s, s.tap[path].release)
    ensures var f, asset := s.tap[path], s.assets[id];
      var digests := Digests(s.releases[f.release].attested.value.build);
      RenderFormula(f.template, s.releases[f.release].tag, f.manifest, digests) == Some(f.text)
      && (asset.name != SUMS ==> asset.name in digests && digests[asset.name] == sha(asset.content))
      && (asset.name == SUMS && digests != map[] ==> ReadSums(asset.content) == Some(digests))
  {
    var f := s.tap[path];
    var build := s.releases[f.release].attested.value.build;
    assert IsExact(AssetsOf(s, f.release), sha, build);
    assert IsAsBuilt(AssetsOf(s, f.release)[id], sha, build);
    SumsRoundTrip(Digests(build));
  }
}
