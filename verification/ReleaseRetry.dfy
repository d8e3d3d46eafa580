/** Why re-running `publish` is safe and enough (scripts/release-github.py): whatever interrupted runs
    for one tag and the same artifacts have done, the next run in which nothing fails succeeds. */
module ReleaseRetry {
  import opened Texts
  import opened Sums
  import opened ReleaseBuild
  import opened ReleaseProtocol
  import opened ReleaseSafety
  import opened ReleasePublish

  /** The log's `publish` runs for `tag` were all of the same artifacts, and none has promoted it. The
      runs of other tags are not restricted. */
  ghost predicate SameArtifacts(log: seq<Action>, tag: string, build: Build) {
    forall a :: a in log ==> (a.Flip? && a.tag == tag ==> a.build == build) && !(a.Promote? && a.tag == tag)
  }

  /** What is out under `tag`, if anything, is a prerelease of this build. */
  ghost predicate OnlyThisBuildIsOut(s: Store, tag: string, build: Build) {
    forall r :: IsOut(s, r) && s.releases[r].tag == tag ==>
      s.releases[r].phase == Prerelease && s.releases[r].attested.Some? && s.releases[r].attested.value.build == build
  }

  lemma NextKeepsTheBuild(s: Store, sha: Bytes -> string, a: Action, tag: string, build: Build)
    requires OnlyThisBuildIsOut(s, tag, build) && Guard(s, sha, a) && SameArtifacts([a], tag, build)
    ensures OnlyThisBuildIsOut(Next(s, a), tag, build) && Next(s, a).tags == s.tags
  {
    hide VersionOf, RenderFormula, IsExact, IsWarranted, AllBare, NothingNewerIsLatest, NoneNamed;
    assert a in [a];
  }

  lemma {:induction false} RunsKeepTheBuild(s: Store, sha: Bytes -> string, log: seq<Action>, tag: string, build: Build)
    requires OnlyThisBuildIsOut(s, tag, build) && Lawful(s, sha, log) && SameArtifacts(log, tag, build)
    ensures OnlyThisBuildIsOut(After(s, log), tag, build) && After(s, log).tags == s.tags
  {
    hide OnlyThisBuildIsOut, Guard, Next;
    if log != [] {
      RunsKeepTheBuild(s, sha, log[..|log| - 1], tag, build);
      NextKeepsTheBuild(After(s, log[..|log| - 1]), sha, log[|log| - 1], tag, build);
    }
  }

  lemma AtMostOneDraft(s: Store, tag: string)
    requires OneReleasePerTag(s)
    ensures |DraftsOf(s, tag)| <= 1
  {
    var drafts := DraftsOf(s, tag);
    if drafts != {} {
      var r :| r in drafts;
      assert drafts == {r};
    }
  }

  /** After any runs of the same artifacts, interrupted anywhere, `publish` has all it needs: by its
      contract the next run in which nothing fails publishes the build or finds it published. */
  lemma RetriesConverge(s: Store, sha: Bytes -> string, log: seq<Action>, tag: string, manifest: Manifest,
                        dist: seq<File>, disk: map<string, Bytes>, commit: Option<string>)
    requires Inv(s, sha) && OneReleasePerTag(s) && Lawful(s, sha, log)
    requires IsReady(s, sha, tag, manifest, dist, disk, commit) && NonePublished(s, tag)
    requires SameArtifacts(log, tag, LocalBuild(Collected(dist, sha, PayloadNames(manifest.all))))
    ensures IsReady(After(s, log), sha, tag, manifest, dist, disk, commit)
  {
    hide Guard, Next, VersionOf, IsExact, AllBare, LocalBuild, Collected, PayloadNames, IsDistinct, FilesAreRight,
         IsExactlyTheRelease, DraftsOf, AssetsOf, Lawful, After;
    var build := LocalBuild(Collected(dist, sha, PayloadNames(manifest.all)));
    var now := After(s, log);
    RunsKeepTheBuild(s, sha, log, tag, build);
    EveryRunIsSafe(s, sha, log);
    NoSecondDraft(s, sha, log);
    AtMostOneDraft(now, tag);
    if !NonePublished(now, tag) {
      var r :| r in now.releases && now.releases[r].tag == tag && now.releases[r].phase != Draft;
      assert IsOut(now, r);
      assert IsPrereleaseOf(now, r, tag);
      assert IsExact(AssetsOf(now, r), sha, build);
    }
  }
}
