/** The build a release is for: what `collect_dist` has proved of the artifacts, by asset name
    (scripts/release-github.py). */
module ReleaseBuild {
  import opened Texts
  import opened Sums

  /** What a producer recorded of one payload asset. */
  datatype Payload = Payload(size: nat, sha256: string)

  /** The payload of one build, by asset name. */
  type Build = map<string, Payload>

  function Digests(build: Build): map<string, string> {
    map n | n in build :: build[n].sha256
  }

  function LocalDigests(locals: seq<LocalAsset>): map<string, string> {
    if locals == [] then map[]
    else LocalDigests(locals[..|locals| - 1])[locals[|locals| - 1].name := locals[|locals| - 1].sha256]
  }

  /** The producers' records, as the release must hold them. */
  function LocalBuild(locals: seq<LocalAsset>): Build {
    if locals == [] then map[]
    else
      var last := locals[|locals| - 1];
      LocalBuild(locals[..|locals| - 1])[last.name := Payload(|last.data|, last.sha256)]
  }

  ghost predicate LocalsDiffer(locals: seq<LocalAsset>) {
    forall i, j :: 0 <= i < j < |locals| ==> locals[i].name != locals[j].name
  }

  function LocalNames(locals: seq<LocalAsset>): set<string> {
    set l | l in locals :: l.name
  }

  lemma {:induction false} BuildKeepsNames(locals: seq<LocalAsset>)
    ensures LocalBuild(locals).Keys == LocalNames(locals)
    ensures Digests(LocalBuild(locals)) == LocalDigests(locals)
  {
    if locals != [] {
      var most, last := locals[..|locals| - 1], locals[|locals| - 1];
      BuildKeepsNames(most);
      assert LocalNames(locals) == LocalNames(most) + {last.name};
      var build := LocalBuild(most)[last.name := Payload(|last.data|, last.sha256)];
      assert LocalBuild(locals) == build;
      assert Digests(build) == Digests(LocalBuild(most))[last.name := last.sha256];
    }
  }

  lemma {:induction false} BuildRecordsLocals(locals: seq<LocalAsset>)
    requires LocalsDiffer(locals)
    ensures LocalBuild(locals).Keys == LocalNames(locals)
    ensures Digests(LocalBuild(locals)) == LocalDigests(locals)
    ensures forall l :: l in locals ==> LocalBuild(locals)[l.name] == Payload(|l.data|, l.sha256)
  {
    hide Digests, LocalDigests;
    BuildKeepsNames(locals);
    if locals != [] {
      var most, last := locals[..|locals| - 1], locals[|locals| - 1];
      BuildRecordsLocals(most);
      forall l | l in locals ensures LocalBuild(locals)[l.name] == Payload(|l.data|, l.sha256) {
        var k :| 0 <= k < |locals| && locals[k] == l;
        if k < |most| {
          assert most[k] == l && l in most && l.name != last.name;
        }
      }
    }
  }

  /** The names of the payload: the manifest's, without `SHA256SUMS`. */
  function PayloadNames(all: seq<string>): seq<string> {
    if all == [] then []
    else (if all[0] == SUMS then [] else [all[0]]) + PayloadNames(all[1..])
  }

  predicate IsDistinct(names: seq<string>) {
    forall i, j :: 0 <= i < j < |names| ==> names[i] != names[j]
  }

  lemma {:induction false} PayloadIsTheRest(all: seq<string>)
    ensures forall n :: n in PayloadNames(all) <==> n in all && n != SUMS
  {
    if all != [] {
      PayloadIsTheRest(all[1..]);
    }
  }

  lemma {:induction false} PayloadIsDistinct(all: seq<string>)
    requires IsDistinct(all)
    ensures IsDistinct(PayloadNames(all))
  {
    if all != [] {
      forall i, j | 0 <= i < j < |all[1..]| ensures all[1..][i] != all[1..][j] {
        assert all[i + 1] != all[j + 1];
      }
      PayloadIsDistinct(all[1..]);
      if all[0] != SUMS {
        var rest := PayloadNames(all[1..]);
        PayloadIsTheRest(all[1..]);
        forall n | n in rest ensures n != all[0] {
          var k :| 0 <= k < |all[1..]| && all[1..][k] == n;
          assert all[0] != all[k + 1];
        }
        PrependDistinct(all[0], rest);
      } else {
        assert PayloadNames(all) == PayloadNames(all[1..]);
      }
    }
  }

  lemma PrependDistinct(name: string, rest: seq<string>)
    requires IsDistinct(rest) && name !in rest
    ensures IsDistinct([name] + rest)
  {
    var names := [name] + rest;
    forall i, j | 0 <= i < j < |names| ensures names[i] != names[j] {
      assert names[j] == rest[j - 1] && rest[j - 1] in rest;
      if i > 0 {
        assert names[i] == rest[i - 1];
      }
    }
  }

  // ----- what entitles a run to publish

  /** What a `publish` run was given: the manifest's names, the directory, and the commit the build is for. */
  datatype Warrant = Warrant(names: seq<string>, dist: seq<File>, commit: Option<string>)

  /** The directory was proved to hold exactly the manifest's payload, and this is the build it holds. */
  ghost predicate IsWarranted(w: Warrant, sha: Bytes -> string, build: Build) {
    SUMS in w.names && IsDistinct(w.names) && IsExactlyTheRelease(w.dist, sha, PayloadNames(w.names))
    && build == LocalBuild(Collected(w.dist, sha, PayloadNames(w.names)))
  }

  lemma CollectedNamesAreThePayload(dist: seq<File>, sha: Bytes -> string, all: seq<string>)
    requires IsDistinct(all) && SUMS in all
    ensures var locals := Collected(dist, sha, PayloadNames(all));
      LocalsDiffer(locals) && (set n | n in all) == LocalNames(locals) + {SUMS} && SUMS !in LocalNames(locals)
  {
    hide ContentsNamed;
    var payload := PayloadNames(all);
    var locals := Collected(dist, sha, payload);
    PayloadIsTheRest(all);
    PayloadIsDistinct(all);
    forall n | n in payload ensures n in LocalNames(locals) {
      var k :| 0 <= k < |payload| && payload[k] == n;
      assert locals[k] in locals;
    }
    forall l | l in locals ensures l.name in payload {
      var k :| 0 <= k < |locals| && locals[k] == l;
      assert payload[k] in payload;
    }
  }

  lemma {:induction false} LocalDigestsAreBare(locals: seq<LocalAsset>)
    requires forall l :: l in locals ==> IsBareName(l.name) && IsDigest(l.sha256)
    ensures AllBare(LocalDigests(locals))
  {
    hide IsBareName, IsDigest;
    if locals != [] {
      LocalDigestsAreBare(locals[..|locals| - 1]);
      assert locals[|locals| - 1] in locals;
    }
  }

  lemma CollectedDigestsAreBare(dist: seq<File>, sha: Bytes -> string, payload: seq<string>)
    requires IsExactlyTheRelease(dist, sha, payload)
    requires forall f :: f in dist ==> '/' !in f.name
    ensures AllBare(LocalDigests(Collected(dist, sha, payload)))
  {
    hide IsBareName, IsDigest, ContentsNamed, LocalDigests, AllBare;
    var locals := Collected(dist, sha, payload);
    forall l | l in locals ensures IsBareName(l.name) && IsDigest(l.sha256) {
      var k :| 0 <= k < |locals| && locals[k] == l;
      assert payload[k] in payload;
      CollectedAssetsAreBare(dist, sha, payload, payload[k]);
      assert IsProved(dist, sha, payload[k]);
    }
    LocalDigestsAreBare(locals);
  }
}
