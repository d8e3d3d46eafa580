/** The client of the release protocol (scripts/release-github.py): the requests it sends.

    Every request may be applied or not, and answered or not. `flaky` says whether that may happen at
    all in a run; a run that is not flaky is one in which nothing fails. One client runs at a time, and
    a request that was given up has no later effect. */
module ReleaseClient {
  import opened Texts
  import opened Sums
  import opened ReleaseBuild
  import opened ReleaseProtocol
  import opened ReleaseSafety

  const MAX_ATTEMPTS := 4

  /** Nothing differs but assets of that name on that release. */
  ghost predicate DiffersOnlyIn(before: Store, after: Store, release: nat, name: string) {
    after.tags == before.tags && after.releases == before.releases && after.latest == before.latest
    && after.tap == before.tap && OtherAssets(after, release, name) == OtherAssets(before, release, name)
  }

  /** Nothing differs but assets of that release. */
  ghost predicate DiffersOnlyOn(before: Store, after: Store, release: nat) {
    after.tags == before.tags && after.releases == before.releases && after.latest == before.latest
    && after.tap == before.tap && forall r :: r != release ==> AssetsOf(after, r) == AssetsOf(before, r)
  }

  lemma RepeatingChangesNothing(s: Store, a: Action)
    requires a.Remove? || a.Flip? || a.Promote?
    ensures Next(Next(s, a), a) == Next(s, a)
  {
    var n := Next(s, a);
    if a.Flip? && a.release in s.releases {
      assert Next(n, a).releases == n.releases;
    } else if a.Promote? && a.release in s.releases {
      assert Next(n, a).releases == n.releases;
    }
  }

  /** The log has only grown, by uploads and deletions on drafts. */
  ghost predicate OnlyUploads(before: seq<Action>, after: seq<Action>) {
    before <= after && forall i :: |before| <= i < |after| ==> after[i].Remove? || after[i].Record?
  }

  /** The log has only grown, by what a `publish` run of this tag and build may do, with what it was given. */
  ghost predicate OnlyPublishes(before: seq<Action>, after: seq<Action>, tag: string, build: Build, warrant: Warrant) {
    before <= after && forall i :: |before| <= i < |after| ==>
      after[i].Remove? || after[i].Record? || after[i] == Create(tag)
      || (after[i].Flip? && after[i].tag == tag && after[i].build == build && after[i].warrant == warrant)
  }

  class GitHub {
    const sha: Bytes -> string
    const flaky: bool
    ghost const origin: Store
    var store: Store
    ghost var log: seq<Action>

    /** The store is what a lawful log leaves of a store that was safe to begin with. */
    ghost predicate Valid()
      reads this
    {
      Inv(origin, sha) && Lawful(origin, sha, log) && store == After(origin, log) && Inv(store, sha)
    }

    constructor (sha: Bytes -> string, flaky: bool, store: Store)
      requires Inv(store, sha)
      ensures Valid() && log == []
      ensures this.sha == sha && this.flaky == flaky && this.store == store && this.origin == store
    {
      this.sha, this.flaky, this.origin := sha, flaky, store;
      this.store, this.log := store, [];
    }

    /** The server applies an effect. */
    method Apply(a: Action)
      requires Valid() && Guard(store, sha, a)
      modifies this`store, this`log
      ensures Valid() && log == old(log) + [a] && store == Next(old(store), a)
    {
      hide Inv, Guard, Next, After, Lawful;
      OneMore(origin, sha, log, a);
      NextKeeps(store, sha, a);
      store := Next(store, a);
      log := log + [a];
    }

    /** A request that changes nothing: a read, or a write of values that are already there. */
    method Ask() returns (answered: bool)
      ensures !flaky ==> answered
    {
      answered := true;
      if flaky {
        answered := *;
      }
    }

    /** `call`, for a request with one effect: tried again while it looks worth retrying, each try
        applied or not and answered or not. A success is only ever answered to an applied request. */
    method Send(a: Action, retry: bool) returns (answered: bool)
      requires Valid() && Guard(store, sha, a)
      requires retry ==> a.Remove? || a.Flip? || a.Promote?
      modifies this`store, this`log
      ensures Valid()
      ensures (store == old(store) && log == old(log)) || (store == Next(old(store), a) && log == old(log) + [a])
      ensures answered ==> store == Next(old(store), a)
      ensures !flaky ==> answered
    {
      hide Inv, Guard, Next, After, Lawful;
      var applied := false;
      var attempts := if retry then MAX_ATTEMPTS else 1;
      answered := false;
      var attempt := 0;
      while attempt < attempts && !answered
        invariant Valid() && 0 <= attempt <= attempts
        invariant !applied ==> store == old(store) && log == old(log)
        invariant applied ==> store == Next(old(store), a) && log == old(log) + [a]
        invariant answered ==> applied
        invariant attempt == 0 ==> !applied
        invariant !flaky && attempt > 0 ==> answered
      {
        var applies, answers, retryable := true, true, true;
        if flaky {
          applies, answers, retryable := *, *, *;
        }
        if applies && !applied {
          Apply(a);
          applied := true;
        } else if applies {
          // The second application of the same values.
          RepeatingChangesNothing(old(store), a);
          store := Next(store, a);
        }
        answered := applies && answers;
        if !answered && !retryable {
          return;
        }
        attempt := attempt + 1;
      }
    }

    /** `upload_asset`: one POST, never repeated here. GitHub refuses a name it already holds; otherwise
        it may keep an asset, finished or not, and may or may not say so. */
    method UploadAsset(release: nat, name: string, data: Bytes) returns (reply: Option<nat>)
      requires Valid() && IsDraft(store, release)
      modifies this`store, this`log
      ensures Valid() && OnlyUploads(old(log), log)
      ensures DiffersOnlyIn(old(store), store, release, name)
      ensures reply.Some? ==> reply.value in store.assets
      ensures reply.Some? ==> store.assets[reply.value].release == release && store.assets[reply.value].name == name
      ensures !flaky && NoneNamed(old(store), release, name) ==>
        reply.Some? && store.assets[reply.value] == Asset(release, name, Uploaded, data)
    {
      hide Inv, After, Lawful, RenderFormula, IsExact, VersionOf;
      reply := None;
      if NoneNamed(store, release, name) {
        var keeps, state, content, answers := true, Uploaded, data, true;
        if flaky {
          keeps, state, content, answers := *, *, *, *;
        }
        if keeps {
          var id := store.nextId;
          Apply(Record(release, name, state, content));
          assert OtherAssets(store, release, name) == OtherAssets(old(store), release, name) by {
            NewIdIsFresh(old(store), sha);
          }
          if answers {
            reply := Some(id);
          }
        }
      }
    }
  }

  lemma NewIdIsFresh(s: Store, sha: Bytes -> string)
    requires Inv(s, sha)
    ensures s.nextId !in s.assets && s.nextId !in s.releases
  {
  }
}
