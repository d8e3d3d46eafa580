/** `publish`: draft, upload, read back, `SHA256SUMS`, flip to a prerelease
    (scripts/release-github.py). */
module ReleasePublish {
  import opened Texts
  import opened Sums
  import opened ReleaseBuild
  import opened ReleaseProtocol
  import opened ReleaseSafety
  import opened ReleaseClient

  // ----- uploading one asset

  datatype UploadResult = Stored(id: nat) | Exhausted | Stopped

  /** Deletes whatever a failed attempt left under `name`. */
  method RemoveLeftovers(gh: GitHub, release: nat, name: string) returns (ok: bool)
    requires gh.Valid() && IsDraft(gh.store, release)
    modifies gh
    ensures gh.Valid() && OnlyUploads(old(gh.log), gh.log)
    ensures DiffersOnlyIn(old(gh.store), gh.store, release, name)
    ensures ok ==> NoneNamed(gh.store, release, name)
    ensures !gh.flaky ==> ok
  {
    hide Inv, After, Lawful, RenderFormula, VersionOf, IsExact;
    ok := gh.Ask();
    if !ok {
      return;
    }
    var listed := AssetsOf(gh.store, release).Keys;
    while listed != {}
      invariant gh.Valid() && OnlyUploads(old(gh.log), gh.log) && ok
      invariant DiffersOnlyIn(old(gh.store), gh.store, release, name)
      invariant forall id :: id in AssetsOf(gh.store, release) && gh.store.assets[id].name == name ==> id in listed
      invariant forall id :: id in listed ==> id in gh.store.assets && gh.store.assets[id].release == release
      decreases listed
    {
      var id :| id in listed;
      listed := listed - {id};
      if gh.store.assets[id].name == name {
        ok := gh.Send(Remove(id), true);
        if !ok {
          return;
        }
      }
    }
  }

  /** `upload_with_cleanup`. Whatever each POST did on the server, a normal return means exactly one
      asset of that name, finished and of that size; giving up leaves none of that name; and nothing
      else has changed either way. */
  method UploadWithCleanup(gh: GitHub, release: nat, name: string, data: Bytes) returns (r: UploadResult)
    requires gh.Valid() && IsDraft(gh.store, release) && NoneNamed(gh.store, release, name)
    modifies gh
    ensures gh.Valid() && OnlyUploads(old(gh.log), gh.log)
    ensures DiffersOnlyIn(old(gh.store), gh.store, release, name)
    ensures r.Stored? ==> r.id in gh.store.assets && r.id !in AssetsOf(old(gh.store), release)
    ensures r.Stored? ==> var a := gh.store.assets[r.id]; a.state == Uploaded && |a.content| == |data| && a.name == name
    ensures r.Stored? ==> AssetsOf(gh.store, release) == AssetsOf(old(gh.store), release)[r.id := gh.store.assets[r.id]]
    ensures r.Exhausted? ==> AssetsOf(gh.store, release) == AssetsOf(old(gh.store), release)
    ensures !gh.flaky ==> r.Stored? && gh.store.assets[r.id].content == data
  {
    hide Inv, After, Lawful, RenderFormula, VersionOf, IsExact;
    var attempt := 1;
    while attempt < MAX_ATTEMPTS
      invariant 1 <= attempt <= MAX_ATTEMPTS
      invariant gh.Valid() && OnlyUploads(old(gh.log), gh.log)
      invariant DiffersOnlyIn(old(gh.store), gh.store, release, name)
      invariant NoneNamed(gh.store, release, name)
      invariant !gh.flaky ==> attempt == 1
    {
      var reply := gh.UploadAsset(release, name, data);
      if reply.Some? {
        var asset := gh.store.assets[reply.value];
        if asset.state == Uploaded && |asset.content| == |data| {
          OneNewAsset(old(gh.store), gh.store, gh.sha, release, name, reply.value);
          return Stored(reply.value);
        }
      }
      var clean := RemoveLeftovers(gh, release, name);
      if !clean {
        return Stopped;
      }
      attempt := attempt + 1;
    }
    NoNewAsset(old(gh.store), gh.store, release, name);
    r := Exhausted;
  }

  lemma OneNewAsset(before: Store, after: Store, sha: Bytes -> string, release: nat, name: string, id: nat)
    requires Inv(after, sha) && NoneNamed(before, release, name) && DiffersOnlyIn(before, after, release, name)
    requires id in after.assets && after.assets[id].release == release && after.assets[id].name == name
    ensures id !in AssetsOf(before, release)
    ensures AssetsOf(after, release) == AssetsOf(before, release)[id := after.assets[id]]
  {
    hide PublishedIsExact, TagsAreSingle, LatestIsNewest, TapIsRendered, IdsAreKnown;
    var others, others' := OtherAssets(before, release, name), OtherAssets(after, release, name);
    forall i | i in before.assets ensures i in others' && after.assets[i] == before.assets[i] {
      assert i in others;
    }
    forall i | i in after.assets && i != id ensures i in before.assets {
      assert !(after.assets[i].release == release && after.assets[i].name == name);
      assert i in others';
    }
  }

  lemma NoNewAsset(before: Store, after: Store, release: nat, name: string)
    requires NoneNamed(before, release, name) && NoneNamed(after, release, name)
    requires DiffersOnlyIn(before, after, release, name)
    ensures AssetsOf(after, release) == AssetsOf(before, release)
  {
    var others, others' := OtherAssets(before, release, name), OtherAssets(after, release, name);
    assert others == before.assets && others' == after.assets;
  }

  // ----- checking what GitHub holds

  /** What `assert_asset_set` lets through: exactly these names, each once, every upload finished, every
      known size right. */
  ghost predicate IsRightSet(held: map<nat, Asset>, names: seq<string>, sizes: map<string, nat>) {
    NamesOf(held) == (set n | n in names) && NamesDiffer(held) && forall id :: id in held ==> HasRightSize(held[id], sizes)
  }

  predicate HasRightSize(a: Asset, sizes: map<string, nat>) {
    a.state == Uploaded && (a.name in sizes ==> |a.content| == sizes[a.name])
  }

  /** `assert_asset_set` */
  method AssetSetIsRight(held: map<nat, Asset>, names: seq<string>, sizes: map<string, nat>) returns (ok: bool)
    ensures ok <==> IsRightSet(held, names, sizes)
  {
    var problems := 0;
    if NamesOf(held) != (set n | n in names) {
      problems := problems + 1;
    }
    if !NamesDiffer(held) {
      problems := problems + 1;
    }
    var before := problems;
    var left := held.Keys;
    while left != {}
      invariant left <= held.Keys && problems >= before >= 0
      invariant problems == before <==> forall id :: id in held.Keys - left ==> HasRightSize(held[id], sizes)
      decreases left
    {
      var id :| id in left;
      left := left - {id};
      if !HasRightSize(held[id], sizes) {
        problems := problems + 1;
      }
    }
    assert held.Keys - left == held.Keys;
    ok := problems == 0;
  }

  predicate Serves(a: Asset, sha: Bytes -> string, local: LocalAsset) {
    a.name == local.name && |a.content| == |local.data| && sha(a.content) == local.sha256
  }

  /** The release holds an asset with this one's name, and its bytes are the producer's. */
  ghost predicate IsServed(held: map<nat, Asset>, sha: Bytes -> string, local: LocalAsset) {
    exists id :: id in held && Serves(held[id], sha, local)
  }

  ghost predicate AllServed(held: map<nat, Asset>, sha: Bytes -> string, locals: seq<LocalAsset>) {
    forall l :: l in locals ==> IsServed(held, sha, l)
  }

  /** `read_back`: `None` when a download fails; otherwise the digests of the served bytes, and whether
      every local asset was served. */
  method ReadBack(gh: GitHub, held: map<nat, Asset>, locals: seq<LocalAsset>)
    returns (r: Option<(map<string, string>, bool)>)
    ensures r.Some? && r.value.1 ==> r.value.0 == LocalDigests(locals)
    ensures r.Some? && r.value.1 ==> AllServed(held, gh.sha, locals)
    ensures !gh.flaky ==> r.Some?
    ensures r.Some? && NamesDiffer(held) && AllServed(held, gh.sha, locals) ==> r.value.1
  {
    var digests: map<string, string> := map[];
    var fine := true;
    var i := 0;
    while i < |locals|
      invariant 0 <= i <= |locals|
      invariant fine ==> digests == LocalDigests(locals[..i])
      invariant fine ==> forall k :: 0 <= k < i ==> IsServed(held, gh.sha, locals[k])
      invariant !fine && NamesDiffer(held) ==> !AllServed(held, gh.sha, locals)
    {
      var local := locals[i];
      assert locals[..i + 1][..|locals[..i + 1]| - 1] == locals[..i];
      if exists id :: id in held && held[id].name == local.name {
        var id :| id in held && held[id].name == local.name;
        var answered := gh.Ask();
        if !answered {
          return None;
        }
        if Serves(held[id], gh.sha, local) {
          digests := digests[local.name := gh.sha(held[id].content)];
        } else {
          assert NamesDiffer(held) ==> !IsServed(held, gh.sha, local);
          fine := false;
        }
      } else {
        assert !IsServed(held, gh.sha, local);
        fine := false;
      }
      i := i + 1;
    }
    assert locals[..i] == locals;
    r := Some((digests, fine));
  }

  // ----- the build a run is for

  function SizesOf(build: Build): map<string, nat> {
    map n | n in build :: build[n].size
  }

  /** What a served `SHA256SUMS` must say. */
  ghost predicate SumsAre(held: map<nat, Asset>, text: Bytes) {
    forall id :: id in held && held[id].name == SUMS ==> held[id].content == text
  }

  /** Exactly the build follows from the checks `publish` makes before the flip: the served payload
      assets are the producers', `SHA256SUMS` is the text computed from them, and the set is right. */
  lemma ChecksMakeItExact(held: map<nat, Asset>, sha: Bytes -> string, locals: seq<LocalAsset>,
                          names: seq<string>, sizes: map<string, nat>)
    requires LocalsDiffer(locals) && (set n | n in names) == LocalNames(locals) + {SUMS}
    requires IsRightSet(held, names, sizes) && AllServed(held, sha, locals)
    requires SumsAre(held, SumsText(LocalDigests(locals)))
    ensures IsExact(held, sha, LocalBuild(locals))
  {
    hide SumsText, LocalBuild, LocalDigests;
    BuildRecordsLocals(locals);
    forall id | id in held ensures IsAsBuilt(held[id], sha, LocalBuild(locals)) {
      assert HasRightSize(held[id], sizes);
      if held[id].name != SUMS {
        assert held[id].name in NamesOf(held);
        var l :| l in locals && l.name == held[id].name;
        assert IsServed(held, sha, l);
        var j :| j in held && Serves(held[j], sha, l);
        assert j == id;
      }
    }
  }

  /** The other way round: a release that is exactly the build passes every one of those checks. */
  lemma ExactPassesChecks(held: map<nat, Asset>, sha: Bytes -> string, locals: seq<LocalAsset>, names: seq<string>)
    requires LocalsDiffer(locals) && (set n | n in names) == LocalNames(locals) + {SUMS} && SUMS !in LocalNames(locals)
    requires IsExact(held, sha, LocalBuild(locals))
    ensures AllServed(held, sha, locals)
    ensures IsRightSet(held, names, SizesOf(LocalBuild(locals)))
    ensures SumsAre(held, SumsText(LocalDigests(locals)))
    ensures SUMS in NamesOf(held)
  {
    hide SumsText, LocalBuild, LocalDigests;
    BuildRecordsLocals(locals);
    var build := LocalBuild(locals);
    forall l | l in locals ensures IsServed(held, sha, l) {
      assert l.name in LocalNames(locals);
      var id :| id in held && held[id].name == l.name;
      assert IsAsBuilt(held[id], sha, build) && build[l.name] == Payload(|l.data|, l.sha256);
      assert Serves(held[id], sha, l);
    }
    forall id | id in held ensures HasRightSize(held[id], SizesOf(build)) {
      assert IsAsBuilt(held[id], sha, build);
    }
    forall id | id in held && held[id].name == SUMS ensures held[id].content == SumsText(LocalDigests(locals)) {
      assert IsAsBuilt(held[id], sha, build);
    }
  }

  // ----- the run

  datatype PublishResult = Published(release: nat) | AlreadyPublished(release: nat) | NotPublished

  /** Finds the draft of `tag` an earlier run left, or creates one; refuses to choose between two. */
  method DraftFor(gh: GitHub, tag: string) returns (r: Option<nat>)
    requires gh.Valid() && tag in gh.store.tags && VersionOf(tag).Some? && NonePublished(gh.store, tag)
    modifies gh
    ensures gh.Valid() && (gh.log == old(gh.log) || gh.log == old(gh.log) + [Create(tag)])
    ensures r.Some? ==> IsDraft(gh.store, r.value) && gh.store.releases[r.value].tag == tag
    ensures gh.store.tags == old(gh.store.tags)
    ensures r.Some? ==> NonePublished(gh.store, tag)
    ensures !gh.flaky && |DraftsOf(old(gh.store), tag)| <= 1 ==> r.Some?
    ensures !gh.flaky && |DraftsOf(old(gh.store), tag)| > 1 ==> r.None?
  {
    hide Inv, After, Lawful, RenderFormula, VersionOf, IsExact;
    var answered := gh.Ask();
    if !answered {
      return None;
    }
    var drafts := DraftsOf(gh.store, tag);
    if |drafts| > 1 {
      return None;
    }
    if drafts != {} {
      var draft :| draft in drafts;
      answered := gh.Ask();
      return if answered then Some(draft) else None;
    }
    forall r | r in gh.store.releases ensures gh.store.releases[r].tag != tag {
      assert r !in drafts;
    }
    var id := gh.store.nextId;
    answered := gh.Send(Create(tag), false);
    r := if answered then Some(id) else None;
  }

  function DraftsOf(s: Store, tag: string): set<nat> {
    set r | r in s.releases && s.releases[r].tag == tag && s.releases[r].phase == Draft
  }

  /** Every asset an earlier run left on the draft is removed. */
  method EmptyDraft(gh: GitHub, release: nat) returns (ok: bool)
    requires gh.Valid() && IsDraft(gh.store, release)
    modifies gh
    ensures gh.Valid() && OnlyUploads(old(gh.log), gh.log)
    ensures DiffersOnlyOn(old(gh.store), gh.store, release)
    ensures ok ==> AssetsOf(gh.store, release) == map[]
    ensures !gh.flaky ==> ok
  {
    hide Inv, After, Lawful, RenderFormula, VersionOf, IsExact;
    ok := gh.Ask();
    if !ok {
      return;
    }
    var listed := AssetsOf(gh.store, release).Keys;
    while listed != {}
      invariant gh.Valid() && OnlyUploads(old(gh.log), gh.log) && ok
      invariant DiffersOnlyOn(old(gh.store), gh.store, release)
      invariant AssetsOf(gh.store, release).Keys == listed
      decreases listed
    {
      var id :| id in listed;
      label before:
      ok := gh.Send(Remove(id), true);
      RemovingTouchesOneRelease(old@before(gh.store), id, release);
      if !ok {
        return;
      }
      listed := listed - {id};
    }
  }

  lemma RemovingTouchesOneRelease(s: Store, id: nat, release: nat)
    requires id in AssetsOf(s, release)
    ensures forall r :: r != release ==> AssetsOf(Next(s, Remove(id)), r) == AssetsOf(s, r)
    ensures AssetsOf(Next(s, Remove(id)), release) == AssetsOf(s, release) - {id}
  {
    forall r | r != release ensures AssetsOf(Next(s, Remove(id)), r) == AssetsOf(s, r) {}
  }

  lemma UploadTouchesOneRelease(before: Store, after: Store, release: nat, name: string)
    requires DiffersOnlyIn(before, after, release, name)
    ensures DiffersOnlyOn(before, after, release)
  {
    forall r | r != release ensures AssetsOf(after, r) == AssetsOf(before, r) {
      forall id ensures id in AssetsOf(after, r) <==> id in AssetsOf(before, r) {
        assert id in AssetsOf(after, r) ==> id in OtherAssets(after, release, name);
        assert id in AssetsOf(before, r) ==> id in OtherAssets(before, release, name);
      }
      forall id | id in AssetsOf(after, r) ensures after.assets[id] == before.assets[id] {
        assert OtherAssets(after, release, name)[id] == OtherAssets(before, release, name)[id];
      }
    }
  }

  lemma NoneOfThatName(s: Store, release: nat, name: string)
    requires name !in NamesOf(AssetsOf(s, release))
    ensures NoneNamed(s, release, name)
  {
    forall id | id in s.assets && s.assets[id].release == release ensures s.assets[id].name != name {
      assert id in AssetsOf(s, release);
      assert AssetsOf(s, release)[id].name in NamesOf(AssetsOf(s, release));
    }
  }

  /** The file still hashes to what was proved of it. */
  predicate IsUnchanged(sha: Bytes -> string, local: LocalAsset, disk: map<string, Bytes>) {
    local.name in disk && sha(disk[local.name]) == local.sha256
  }

  /** Every asset is finished and is the file's bytes. */
  ghost predicate HoldsFiles(held: map<nat, Asset>, disk: map<string, Bytes>) {
    forall id :: id in held ==>
      held[id].state == Uploaded && held[id].name in disk && held[id].content == disk[held[id].name]
  }

  /** One payload asset: read the file again, check it, upload it. */
  method UploadOne(gh: GitHub, release: nat, local: LocalAsset, disk: map<string, Bytes>) returns (ok: bool)
    requires gh.Valid() && IsDraft(gh.store, release) && local.name !in NamesOf(AssetsOf(gh.store, release))
    modifies gh
    ensures gh.Valid() && OnlyUploads(old(gh.log), gh.log)
    ensures DiffersOnlyOn(old(gh.store), gh.store, release)
    ensures ok ==> NamesOf(AssetsOf(gh.store, release)) == NamesOf(AssetsOf(old(gh.store), release)) + {local.name}
    ensures ok ==> IsUnchanged(gh.sha, local, disk)
    ensures !gh.flaky ==> (ok <==> IsUnchanged(gh.sha, local, disk))
    ensures !gh.flaky && ok && HoldsFiles(AssetsOf(old(gh.store), release), disk) ==>
      HoldsFiles(AssetsOf(gh.store, release), disk)
  {
    hide Inv, After, Lawful, RenderFormula, VersionOf, IsExact, DiffersOnlyIn, OtherAssets, NamesOf;
    if !IsUnchanged(gh.sha, local, disk) {
      return false;
    }
    NoneOfThatName(gh.store, release, local.name);
    var data := disk[local.name];
    var stored := UploadWithCleanup(gh, release, local.name, data);
    UploadTouchesOneRelease(old(gh.store), gh.store, release, local.name);
    ok := stored.Stored?;
    if ok {
      AddingNames(AssetsOf(old(gh.store), release), stored.id, gh.store.assets[stored.id]);
    }
  }

  lemma DifferingIsTransitive(a: Store, b: Store, c: Store, release: nat)
    requires DiffersOnlyOn(a, b, release) && DiffersOnlyOn(b, c, release)
    ensures DiffersOnlyOn(a, c, release)
    ensures IsDraft(a, release) ==> IsDraft(c, release)
  {
    hide AssetsOf;
  }

  lemma NamesOfOneMore(locals: seq<LocalAsset>, i: nat)
    requires i < |locals| && LocalsDiffer(locals)
    ensures LocalNames(locals[..i + 1]) == LocalNames(locals[..i]) + {locals[i].name}
    ensures locals[i].name !in LocalNames(locals[..i])
  {
    assert locals[..i + 1] == locals[..i] + [locals[i]];
    forall l | l in locals[..i] ensures l.name != locals[i].name {
      var k :| 0 <= k < i && locals[k] == l;
    }
  }

  /** Uploads every payload asset to an empty draft, reading each file again as it goes. */
  method UploadPayload(gh: GitHub, release: nat, locals: seq<LocalAsset>, disk: map<string, Bytes>)
    returns (r: Option<map<string, nat>>)
    requires gh.Valid() && IsDraft(gh.store, release) && AssetsOf(gh.store, release) == map[] && LocalsDiffer(locals)
    modifies gh
    ensures gh.Valid() && OnlyUploads(old(gh.log), gh.log)
    ensures DiffersOnlyOn(old(gh.store), gh.store, release)
    ensures r.Some? ==> NamesOf(AssetsOf(gh.store, release)) == LocalNames(locals) == r.value.Keys
    ensures r.Some? ==> forall n :: n in r.value ==> n in disk && r.value[n] == |disk[n]|
    ensures r.Some? ==> forall l :: l in locals ==> IsUnchanged(gh.sha, l, disk)
    ensures !gh.flaky && r.None? ==> !forall l :: l in locals ==> IsUnchanged(gh.sha, l, disk)
    ensures !gh.flaky && r.Some? ==> HoldsFiles(AssetsOf(gh.store, release), disk)
  {
    hide Inv, After, Lawful, DiffersOnlyOn, AssetsOf, IsDraft;
    var sizes: map<string, nat> := map[];
    var i := 0;
    NothingDiffers(gh.store, release);
    while i < |locals|
      invariant 0 <= i <= |locals|
      invariant gh.Valid() && OnlyUploads(old(gh.log), gh.log) && IsDraft(gh.store, release)
      invariant DiffersOnlyOn(old(gh.store), gh.store, release)
      invariant NamesOf(AssetsOf(gh.store, release)) == LocalNames(locals[..i]) == sizes.Keys
      invariant forall n :: n in sizes ==> n in disk && sizes[n] == |disk[n]|
      invariant !gh.flaky ==> HoldsFiles(AssetsOf(gh.store, release), disk)
      invariant forall k :: 0 <= k < i ==> IsUnchanged(gh.sha, locals[k], disk)
    {
      assert locals[i] in locals;
      NamesOfOneMore(locals, i);
      ghost var before := gh.store;
      var ok := UploadOne(gh, release, locals[i], disk);
      DifferingIsTransitive(old(gh.store), before, gh.store, release);
      DifferingIsTransitive(before, before, gh.store, release) by { NothingDiffers(before, release); }
      if !ok {
        return None;
      }
      sizes := sizes[locals[i].name := |disk[locals[i].name]|];
      i := i + 1;
    }
    assert locals[..i] == locals;
    r := Some(sizes);
  }

  lemma NothingDiffers(s: Store, release: nat)
    ensures DiffersOnlyOn(s, s, release)
  {
  }

  lemma UploadKeepsReleases(before: Store, after: Store, release: nat, name: string)
    requires DiffersOnlyIn(before, after, release, name)
    ensures after.releases == before.releases && after.latest == before.latest && after.tags == before.tags
  {
  }

  lemma AddingNames(held: map<nat, Asset>, id: nat, a: Asset)
    requires id !in held
    ensures NamesOf(held[id := a]) == NamesOf(held) + {a.name}
  {
    var more := held[id := a];
    forall i | i in held ensures more[i].name in NamesOf(more) && more[i] == held[i] {}
    assert more[id].name in NamesOf(more);
  }

  // ----- SHA256SUMS and the flip

  ghost predicate FilesAreRight(sha: Bytes -> string, locals: seq<LocalAsset>, disk: map<string, Bytes>) {
    forall l :: l in locals ==> IsUnchanged(sha, l, disk) && |disk[l.name]| == |l.data|
  }

  lemma ServedIsKept(held: map<nat, Asset>, sha: Bytes -> string, locals: seq<LocalAsset>, id: nat, a: Asset)
    requires AllServed(held, sha, locals) && id !in held
    ensures AllServed(held[id := a], sha, locals)
  {
    forall l | l in locals ensures IsServed(held[id := a], sha, l) {
      assert IsServed(held, sha, l);
      var j :| j in held && Serves(held[j], sha, l);
      assert held[id := a][j] == held[j];
    }
  }

  lemma FilesAreServed(held: map<nat, Asset>, sha: Bytes -> string, locals: seq<LocalAsset>, disk: map<string, Bytes>)
    requires HoldsFiles(held, disk) && NamesOf(held) == LocalNames(locals)
    requires forall l :: l in locals ==> IsUnchanged(sha, l, disk)
    ensures FilesAreRight(sha, locals, disk) ==> AllServed(held, sha, locals)
    ensures AllServed(held, sha, locals) ==> FilesAreRight(sha, locals, disk)
  {
    forall l | l in locals
      ensures IsServed(held, sha, l) <==> |disk[l.name]| == |l.data|
    {
      assert l.name in LocalNames(locals);
      var id :| id in held && held[id].name == l.name;
      assert held[id].content == disk[l.name];
      if |disk[l.name]| == |l.data| {
        assert Serves(held[id], sha, l);
      }
      if IsServed(held, sha, l) {
        var j :| j in held && Serves(held[j], sha, l);
        assert held[j].content == disk[l.name];
      }
    }
  }

  function SumsIds(held: map<nat, Asset>): set<nat> {
    set id | id in held && held[id].name == SUMS
  }

  lemma OneSumsId(held: map<nat, Asset>)
    requires NamesDiffer(held) && SUMS in NamesOf(held)
    ensures |SumsIds(held)| == 1
  {
    var id :| id in held && held[id].name == SUMS;
    assert SumsIds(held) == {id};
  }

  lemma OnlyOne(ids: set<nat>, id: nat)
    requires |ids| == 1 && id in ids
    ensures ids == {id}
  {
    assert |ids - {id}| == 0;
  }

  lemma HeldNamesDiffer(s: Store, sha: Bytes -> string, release: nat)
    requires Inv(s, sha)
    ensures NamesDiffer(AssetsOf(s, release))
  {
    hide PublishedIsExact, TagsAreSingle, LatestIsNewest, TapIsRendered, IdsAreKnown;
    forall i, j | i in AssetsOf(s, release) && j in AssetsOf(s, release)
        && AssetsOf(s, release)[i].name == AssetsOf(s, release)[j].name
      ensures i == j
    {
      assert s.assets[i].release == s.assets[j].release;
    }
  }

  /** The one served `SHA256SUMS` is byte for byte this text. */
  method SumsReadBack(gh: GitHub, held: map<nat, Asset>, text: Bytes) returns (ok: bool)
    ensures ok ==> SumsAre(held, text)
    ensures !gh.flaky && NamesDiffer(held) && SUMS in NamesOf(held) && SumsAre(held, text) ==> ok
  {
    if NamesDiffer(held) && SUMS in NamesOf(held) {
      OneSumsId(held);
    }
    var ids := SumsIds(held);
    if |ids| != 1 {
      return false;
    }
    var id :| id in ids;
    OnlyOne(ids, id);
    var answered := gh.Ask();
    ok := answered && held[id].content == text;
    assert forall j :: j in held && held[j].name == SUMS ==> j in ids;
  }

  ghost predicate LooksFinished(held: map<nat, Asset>, names: seq<string>, sizes: map<string, nat>, sums: Bytes) {
    SumsAre(held, sums) && SUMS in NamesOf(held) && IsRightSet(held, names, sizes)
  }

  /** The last checks, and the flip to a published prerelease. */
  method CheckAndFlip(gh: GitHub, release: nat, locals: seq<LocalAsset>, names: seq<string>,
                      sizes: map<string, nat>, sums: Bytes, warrant: Warrant) returns (ok: bool)
    requires gh.Valid() && IsDraft(gh.store, release)
    requires var tag := gh.store.releases[release].tag;
      IsFor(gh.store, tag, warrant.commit) && VersionOf(tag).Some? && NonePublished(gh.store, tag)
    requires IsWarranted(warrant, gh.sha, LocalBuild(locals))
    requires LocalsDiffer(locals) && (set n | n in names) == LocalNames(locals) + {SUMS} && SUMS !in LocalNames(locals)
    requires AllBare(LocalDigests(locals)) && sums == SumsText(LocalDigests(locals))
    requires AllServed(AssetsOf(gh.store, release), gh.sha, locals) && NamesDiffer(AssetsOf(gh.store, release))
    modifies gh
    ensures gh.Valid() && OnlyPublishes(old(gh.log), gh.log, old(gh.store.releases[release].tag), LocalBuild(locals), warrant)
    ensures ok ==> IsPrereleaseOf(gh.store, release, old(gh.store.releases[release].tag))
    ensures ok ==> IsExact(AssetsOf(gh.store, release), gh.sha, LocalBuild(locals))
    ensures !gh.flaky && LooksFinished(AssetsOf(old(gh.store), release), names, sizes, sums) ==> ok
  {
    hide Inv, After, Lawful, RenderFormula, VersionOf, IsExact, SumsText, LocalDigests, LocalBuild, AllServed,
         LocalsDiffer, NamesDiffer, AllBare, SumsAre, IsRightSet, IsWarranted, IsFor, AssetsOf, Guard, Next;
    var assets := AssetsOf(gh.store, release);
    ok := SumsReadBack(gh, assets, sums);
    if !ok { return; }
    ok := AssetSetIsRight(assets, names, sizes);
    if !ok { return; }
    ChecksMakeItExact(assets, gh.sha, locals, names, sizes);
    BuildRecordsLocals(locals);
    var flip := Flip(release, gh.store.releases[release].tag, LocalBuild(locals), warrant);
    FlipIsAllowed(gh.store, gh.sha, flip);
    FlipPublishes(gh.store, flip);
    ok := gh.Send(flip, true);
    if !ok { return; }
    ok := gh.Ask();
    PrereleaseIsNotLatest(gh.store, gh.sha, release);
    if gh.store.latest == Some(release) { return false; }
  }

  lemma FlipIsAllowed(s: Store, sha: Bytes -> string, a: Action)
    requires a.Flip? && IsDraft(s, a.release) && s.releases[a.release].tag == a.tag
    requires IsExact(AssetsOf(s, a.release), sha, a.build) && IsWarranted(a.warrant, sha, a.build)
    requires AllBare(Digests(a.build)) && IsFor(s, a.tag, a.warrant.commit) && VersionOf(a.tag).Some? && NonePublished(s, a.tag)
    ensures Guard(s, sha, a)
  {
  }

  lemma FlipPublishes(s: Store, a: Action)
    requires a.Flip? && a.release in s.releases
    ensures var n := Next(s, a);
      IsPrereleaseOf(n, a.release, s.releases[a.release].tag) && AssetsOf(n, a.release) == AssetsOf(s, a.release)
  {
  }

  lemma PrereleaseIsNotLatest(s: Store, sha: Bytes -> string, release: nat)
    requires Inv(s, sha) && release in s.releases && s.releases[release].phase == Prerelease
    ensures s.latest != Some(release)
  {
    hide PublishedIsExact, NamesAreSingle, TapIsRendered, IdsAreKnown, TagsAreSingle, VersionOf;
  }

  /** From the uploaded payload to the flip: read it back, compute `SHA256SUMS` from the served bytes,
      upload that and read it back, check the whole set, and only then publish. */
  method CompleteDraft(gh: GitHub, release: nat, locals: seq<LocalAsset>, names: seq<string>,
                       sizes: map<string, nat>, ghost disk: map<string, Bytes>, warrant: Warrant) returns (ok: bool)
    requires gh.Valid() && IsDraft(gh.store, release)
    requires var tag := gh.store.releases[release].tag;
      IsFor(gh.store, tag, warrant.commit) && VersionOf(tag).Some? && NonePublished(gh.store, tag)
    requires IsWarranted(warrant, gh.sha, LocalBuild(locals))
    requires LocalsDiffer(locals) && (set n | n in names) == LocalNames(locals) + {SUMS} && SUMS !in LocalNames(locals)
    requires AllBare(LocalDigests(locals))
    requires NamesOf(AssetsOf(gh.store, release)) == LocalNames(locals) == sizes.Keys
    requires forall n :: n in sizes ==> n in disk && sizes[n] == |disk[n]|
    requires forall l :: l in locals ==> IsUnchanged(gh.sha, l, disk)
    modifies gh
    ensures gh.Valid() && OnlyPublishes(old(gh.log), gh.log, old(gh.store.releases[release].tag), LocalBuild(locals), warrant)
    ensures ok ==> IsPrereleaseOf(gh.store, release, old(gh.store.releases[release].tag))
    ensures ok ==> IsExact(AssetsOf(gh.store, release), gh.sha, LocalBuild(locals))
    ensures !gh.flaky && HoldsFiles(AssetsOf(old(gh.store), release), disk) ==>
      (ok <==> FilesAreRight(gh.sha, locals, disk))
  {
    hide Inv, After, Lawful, RenderFormula, VersionOf, IsExact, DiffersOnlyIn, OtherAssets, SumsText, LocalDigests,
         LocalBuild, AllServed, HoldsFiles, FilesAreRight, LocalsDiffer, IsUnchanged, NamesDiffer, AllBare,
         SumsAre, IsRightSet, NoneNamed, IsWarranted;
    ghost var first := gh.store;
    ghost var held := AssetsOf(first, release);
    ghost var filesHeld := HoldsFiles(held, disk);
    if filesHeld {
      FilesAreServed(held, gh.sha, locals, disk);
    }
    HeldNamesDiffer(first, gh.sha, release);
    ok := gh.Ask();
    if !ok { return; }
    var back := ReadBack(gh, AssetsOf(gh.store, release), locals);
    if back.None? || !back.value.1 { return false; }

    var sums := SumsText(back.value.0);
    NoneOfThatName(gh.store, release, SUMS);
    var stored := UploadWithCleanup(gh, release, SUMS, sums);
    UploadKeepsReleases(first, gh.store, release, SUMS);
    if !stored.Stored? { return false; }
    var assets := AssetsOf(gh.store, release);
    ServedIsKept(held, gh.sha, locals, stored.id, gh.store.assets[stored.id]);
    AddingNames(held, stored.id, gh.store.assets[stored.id]);
    HeldNamesDiffer(gh.store, gh.sha, release);

    ok := gh.Ask();
    if !ok { return; }
    if !gh.flaky && filesHeld {
      FinishedSetIsRight(held, locals, names, sizes, disk, stored.id, gh.store.assets[stored.id], sums);
    }
    ok := CheckAndFlip(gh, release, locals, names, sizes[SUMS := |sums|], sums, warrant);
  }

  lemma FinishedSetIsRight(held: map<nat, Asset>, locals: seq<LocalAsset>, names: seq<string>, sizes: map<string, nat>,
                           disk: map<string, Bytes>, id: nat, a: Asset, sums: Bytes)
    requires HoldsFiles(held, disk) && NamesOf(held) == LocalNames(locals) == sizes.Keys && SUMS !in LocalNames(locals)
    requires forall n :: n in sizes ==> n in disk && sizes[n] == |disk[n]|
    requires (set n | n in names) == LocalNames(locals) + {SUMS}
    requires id !in held && a.name == SUMS && a.state == Uploaded && a.content == sums && NamesDiffer(held[id := a])
    ensures SumsAre(held[id := a], sums) && SUMS in NamesOf(held[id := a])
    ensures IsRightSet(held[id := a], names, sizes[SUMS := |sums|])
  {
    var full := held[id := a];
    AddingNames(held, id, a);
    forall j | j in full ensures full[j].name == SUMS <==> j == id {
      if j != id {
        assert full[j] == held[j] && held[j].name in NamesOf(held);
      }
    }
    forall j | j in full ensures HasRightSize(full[j], sizes[SUMS := |sums|]) {
      if j != id {
        assert full[j] == held[j] && held[j].name in NamesOf(held);
      }
    }
  }

  /** What `publish` checks before it sends anything but reads: the tag is a version that exists, at the
      expected commit, and the directory is exactly the manifest's release, proved. */
  ghost predicate IsEntitled(s: Store, sha: Bytes -> string, tag: string, manifest: Manifest, dist: seq<File>,
                             commit: Option<string>)
  {
    VersionOf(tag).Some? && IsDistinct(manifest.all) && SUMS in manifest.all
    && IsExactlyTheRelease(dist, sha, PayloadNames(manifest.all)) && IsFor(s, tag, commit)
  }

  /** Everything `publish` requires of what it is given and of what GitHub holds for the tag. */
  ghost predicate IsReady(s: Store, sha: Bytes -> string, tag: string, manifest: Manifest, dist: seq<File>,
                          disk: map<string, Bytes>, commit: Option<string>)
  {
    var locals := Collected(dist, sha, PayloadNames(manifest.all));
    IsEntitled(s, sha, tag, manifest, dist, commit)
    && if NonePublished(s, tag)
       then |DraftsOf(s, tag)| <= 1
            && FilesAreRight(sha, locals, disk)
       else exists r :: IsPrereleaseOf(s, r, tag) && IsExact(AssetsOf(s, r), sha, LocalBuild(locals))
  }

  predicate IsPrereleaseOf(s: Store, r: nat, tag: string) {
    r in s.releases && s.releases[r].tag == tag && s.releases[r].phase == Prerelease
  }

  /** `finish_already_published`: success only if the published prerelease is exactly this build's
      output; nothing is ever changed. */
  method FinishAlreadyPublished(gh: GitHub, release: nat, locals: seq<LocalAsset>, names: seq<string>) returns (ok: bool)
    requires gh.Valid() && release in gh.store.releases
    requires LocalsDiffer(locals) && (set n | n in names) == LocalNames(locals) + {SUMS} && SUMS !in LocalNames(locals)
    ensures ok ==> gh.store.releases[release].phase == Prerelease
    ensures ok ==> IsExact(AssetsOf(gh.store, release), gh.sha, LocalBuild(locals))
    ensures !gh.flaky ==> (ok <==> gh.store.releases[release].phase == Prerelease
                                   && IsExact(AssetsOf(gh.store, release), gh.sha, LocalBuild(locals)))
  {
    hide Inv, After, Lawful, SumsText, LocalDigests, LocalBuild, AllServed, LocalsDiffer, NamesDiffer;
    if gh.store.releases[release].phase != Prerelease { return false; }
    ok := gh.Ask();
    if !ok { return; }
    var assets := AssetsOf(gh.store, release);
    if IsExact(assets, gh.sha, LocalBuild(locals)) {
      ExactPassesChecks(assets, gh.sha, locals, names);
    }
    var sizes := SizesOf(LocalBuild(locals));
    ok := AssetSetIsRight(assets, names, sizes);
    if !ok { return; }
    var back := ReadBack(gh, assets, locals);
    if back.None? || !back.value.1 { return false; }
    ok := SumsReadBack(gh, assets, SumsText(back.value.0));
    if ok {
      ChecksMakeItExact(assets, gh.sha, locals, names, sizes);
    }
  }

  lemma PrereleaseIsTheOne(s: Store, sha: Bytes -> string, r: nat, tag: string, build: Build)
    requires Inv(s, sha) && IsOut(s, r) && s.releases[r].tag == tag
    ensures (exists t :: IsPrereleaseOf(s, t, tag) && IsExact(AssetsOf(s, t), sha, build))
      <==> s.releases[r].phase == Prerelease && IsExact(AssetsOf(s, r), sha, build)
  {
    hide PublishedIsExact, NamesAreSingle, LatestIsNewest, TapIsRendered, IdsAreKnown, IsExact, VersionOf, AssetsOf;
    if s.releases[r].phase == Prerelease && IsExact(AssetsOf(s, r), sha, build) {
      assert IsPrereleaseOf(s, r, tag);
    }
    forall t | IsPrereleaseOf(s, t, tag) ensures t == r {
      assert IsOut(s, t);
    }
  }

  /** The part of `publish` that changes anything: nothing is published under the tag yet. */
  method PublishDraft(gh: GitHub, tag: string, locals: seq<LocalAsset>, names: seq<string>, disk: map<string, Bytes>,
                      warrant: Warrant) returns (r: Option<nat>)
    requires gh.Valid() && IsFor(gh.store, tag, warrant.commit) && VersionOf(tag).Some? && NonePublished(gh.store, tag)
    requires IsWarranted(warrant, gh.sha, LocalBuild(locals))
    requires LocalsDiffer(locals) && (set n | n in names) == LocalNames(locals) + {SUMS} && SUMS !in LocalNames(locals)
    requires AllBare(LocalDigests(locals))
    modifies gh
    ensures gh.Valid() && OnlyPublishes(old(gh.log), gh.log, tag, LocalBuild(locals), warrant)
    ensures r.Some? ==> IsPrereleaseOf(gh.store, r.value, tag)
    ensures r.Some? ==> IsExact(AssetsOf(gh.store, r.value), gh.sha, LocalBuild(locals))
    ensures !gh.flaky ==>
      (r.Some? <==> |DraftsOf(old(gh.store), tag)| <= 1 && FilesAreRight(gh.sha, locals, disk))
  {
    hide Inv, After, Lawful, VersionOf, IsExact, LocalBuild, LocalsDiffer, LocalNames, IsUnchanged, HoldsFiles,
         AssetsOf, NamesOf, DraftsOf, LocalDigests, AllBare;
    r := None;
    var draft := DraftFor(gh, tag);
    if draft.None? { return; }
    var release := draft.value;
    ghost var drafted := gh.store;
    var empty := EmptyDraft(gh, release);
    NothingDiffers(gh.store, release);
    DifferingIsTransitive(drafted, gh.store, gh.store, release);
    if !empty { return; }
    ghost var emptied := gh.store;
    var sizes := UploadPayload(gh, release, locals, disk);
    NothingDiffers(gh.store, release);
    DifferingIsTransitive(emptied, gh.store, gh.store, release);
    if sizes.None? { return; }
    var done := CompleteDraft(gh, release, locals, names, sizes.value, disk, warrant);
    if done {
      r := Some(release);
    }
  }

  /** `publish`. A run that changes anything or reports success was given a proved build of a tag that is at
      the expected commit. A run that reports success has left the tag published with exactly its build, or found
      it so without touching anything. A run in which nothing fails succeeds exactly when it is given
      a complete, proved build of a tag that is there, and nothing else is published under the tag. */
  method Publish(gh: GitHub, tag: string, manifest: Manifest, dist: seq<File>, disk: map<string, Bytes>,
                 commit: Option<string>) returns (r: PublishResult)
    requires gh.Valid()
    requires forall f :: f in dist ==> '/' !in f.name
    modifies gh
    ensures gh.Valid()
    ensures OnlyPublishes(old(gh.log), gh.log, tag, LocalBuild(Collected(dist, gh.sha, PayloadNames(manifest.all))),
                          Warrant(manifest.all, dist, commit))
    ensures !r.NotPublished? || gh.log != old(gh.log) ==>
      IsEntitled(old(gh.store), gh.sha, tag, manifest, dist, commit)
      && tag in old(gh.store).tags && (commit.Some? ==> old(gh.store).tags[tag] == commit.value)
    ensures !r.NotPublished? ==> IsPrereleaseOf(gh.store, r.release, tag)
    ensures !r.NotPublished? ==> IsExact(AssetsOf(gh.store, r.release), gh.sha,
                                         LocalBuild(Collected(dist, gh.sha, PayloadNames(manifest.all))))
    ensures r.AlreadyPublished? ==> gh.store == old(gh.store) && gh.log == old(gh.log)
    ensures !gh.flaky ==> (!r.NotPublished? <==> IsReady(old(gh.store), gh.sha, tag, manifest, dist, disk, commit))
  {
    hide Inv, After, Lawful, RenderFormula, VersionOf, IsExact, SumsText, Collected, ContentsNamed, IsExactlyTheRelease,
         LocalBuild, LocalsDiffer, LocalNames, IsUnchanged, HoldsFiles, AssetsOf, NamesOf, PayloadNames,
         LocalDigests, AllBare;
    r := NotPublished;
    if VersionOf(tag).None? || !IsDistinct(manifest.all) || SUMS !in manifest.all { return; }
    var payload := PayloadNames(manifest.all);
    var collected := CollectDist(dist, gh.sha, payload);
    if collected.None? { return; }
    var locals := collected.value;
    CollectedNamesAreThePayload(dist, gh.sha, manifest.all);
    CollectedDigestsAreBare(dist, gh.sha, payload);

    var answered := gh.Ask();
    if !answered || tag !in gh.store.tags { return; }
    if commit.Some? && gh.store.tags[tag] != commit.value { return; }
    var warrant := Warrant(manifest.all, dist, commit);

    answered := gh.Ask();
    if !answered { return; }
    if !NonePublished(gh.store, tag) {
      var release :| release in gh.store.releases && gh.store.releases[release].tag == tag
        && gh.store.releases[release].phase != Draft;
      PrereleaseIsTheOne(gh.store, gh.sha, release, tag, LocalBuild(locals));
      var same := FinishAlreadyPublished(gh, release, locals, manifest.all);
      return if same then AlreadyPublished(release) else NotPublished;
    }

    // The generated changelog of the notes.
    answered := gh.Ask();
    if !answered { return; }
    var published := PublishDraft(gh, tag, locals, manifest.all, disk, warrant);
    if published.Some? {
      r := Published(published.value);
    }
  }
}
