/**
 * The counters of a repository as a pure state machine: `version` counts changed fetches,
 * `ackVersion` is the version the user last acknowledged. The update decision of both
 * revisions of `CaseFile.update_repo` is stated here too, with the remote call's answer
 * and the stored snapshot as inputs.
 */
module Lifecycle {
  import opened Wrappers
  import opened Errors
  import opened Marker
  import opened Normalizer

  /** What `create_repo` writes: version and ackVersion 0, the current repoVersion. */
  function Initial(repoType: int, criteria: string): RepoInfo {
    RepoInfo(repoType, REPO_VERSION, criteria, 0, 0)
  }

  /** `has_unread_info`. */
  predicate Unread(info: RepoInfo) {
    info.ackVersion < info.version
  }

  /** The invariant of every repository reachable from creation. */
  predicate Ordered(info: RepoInfo) {
    0 <= info.ackVersion <= info.version
  }

  /** What `mark_repo` returns: `version != ack_version`, evaluated before acting. */
  predicate HasNews(info: RepoInfo) {
    info.version != info.ackVersion
  }

  /** With the invariant in place, mark's `!=` test and the unread query `<` agree. */
  lemma NewsIsUnread(info: RepoInfo)
    requires Ordered(info)
    ensures HasNews(info) <==> Unread(info)
  {
  }

  /** One event in the life of a repository. */
  datatype Event =
    | Fetch(changed: bool)  // update_repo, with the decision it reached
    | Mark                  // mark_repo

  function Step(info: RepoInfo, e: Event): (next: RepoInfo)
    ensures next.repoType == info.repoType && next.repoVersion == info.repoVersion
    ensures next.criteria == info.criteria
    ensures e == Fetch(true) ==> next.version == info.version + 1 && next.ackVersion == info.ackVersion
    ensures e == Fetch(false) ==> next == info
    ensures e == Mark ==> next.version == info.version && next.ackVersion == info.version
  {
    match e
    case Fetch(changed) => if changed then info.(version := info.version + 1) else info
    case Mark => if HasNews(info) then info.(ackVersion := info.version) else info
  }

  function Replay(info: RepoInfo, es: seq<Event>): RepoInfo
    decreases |es|
  {
    if es == [] then info else Replay(Step(info, es[0]), es[1..])
  }

  function ChangeCount(es: seq<Event>): nat {
    if es == [] then 0 else (if es[0] == Fetch(true) then 1 else 0) + ChangeCount(es[1..])
  }

  /** Every step keeps `0 <= ackVersion <= version`. */
  lemma {:induction false} ReplayKeepsOrdered(info: RepoInfo, es: seq<Event>)
    requires Ordered(info)
    ensures Ordered(Replay(info, es))
    decreases |es|
  {
    if es != [] {
      ReplayKeepsOrdered(Step(info, es[0]), es[1..]);
    }
  }

  /** `ackVersion <= version` in every state reachable from `create_repo`. */
  lemma ReachableIsOrdered(repoType: int, criteria: string, es: seq<Event>)
    ensures Ordered(Replay(Initial(repoType, criteria), es))
  {
    ReplayKeepsOrdered(Initial(repoType, criteria), es);
  }

  /** The version counts the changed fetches exactly: one per change, nothing else moves it. */
  lemma {:induction false} VersionCountsChanges(info: RepoInfo, es: seq<Event>)
    ensures Replay(info, es).version == info.version + ChangeCount(es)
    ensures Replay(info, es).criteria == info.criteria && Replay(info, es).repoType == info.repoType
    decreases |es|
  {
    if es != [] {
      VersionCountsChanges(Step(info, es[0]), es[1..]);
    }
  }

  /** After an acknowledgement nothing is unread until the next changed fetch. */
  lemma {:induction false} ReadUntilNextChange(info: RepoInfo, es: seq<Event>)
    requires ChangeCount(es) == 0
    ensures !Unread(Replay(Step(info, Mark), es))
    decreases |es|
  {
    if es != [] {
      var next := Step(info, Mark);
      assert Step(next, es[0]) == Step(info, Mark) by {
        assert es[0] != Fetch(true);
      }
      assert ChangeCount(es[1..]) == 0;
      ReadUntilNextChange(info, es[1..]);
    }
  }

  /** A changed fetch on a consistent repository always leaves unread information. */
  lemma ChangeMakesUnread(info: RepoInfo)
    requires Ordered(info)
    ensures Unread(Step(info, Fetch(true)))
  {
  }

  // ---------------------------------------------------------------------------
  // The update decision.

  /** The two revisions of `update_repo`. */
  datatype Revision =
    | Latest   // adrian.py: `if not data`, a missing snapshot counts as changed
    | Earlier  // adrian/adrian.py: `if data == None`, a missing snapshot raises

  /**
   * Whether the response is processed at all. `not data` is also true of an object with no
   * fields (its length is 0); `data == None` is true of `None` only.
   */
  predicate HasData<S>(rev: Revision, data: Option<Object<S>>) {
    match rev
    case Latest => data.Some? && data.value.fields != map[]
    case Earlier => data.Some?
  }

  /** An empty response counts as "no data" in the latest revision and is processed in the earlier one. */
  lemma EmptyResponse<S>()
    ensures !HasData<S>(Latest, Some(Object(map[])))
    ensures HasData<S>(Earlier, Some(Object(map[])))
  {
  }

  /**
   * The `changed` flag: always true on the first fetch (`version == 0`), otherwise
   * `old_data != data`, where an unreadable snapshot is `None` (latest) or an error (earlier).
   */
  function Decide(rev: Revision, version: int, stored: Option<Tree>, fetched: Tree): (r: Result<bool, Failure>)
    ensures version == 0 ==> r == Ok(true)
    ensures r == Ok(false) <==> version != 0 && stored == Some(fetched)
    ensures r.Err? <==> rev == Earlier && version != 0 && stored == None
    ensures r.Err? ==> r.error == SnapshotUnreadable
  {
    if version == 0 then Ok(true)
    else if stored.None? && rev == Earlier then Err(SnapshotUnreadable)
    else Ok(stored != Some(fetched))
  }

  /** The identical response fetched again after it was stored is never news, in either revision. */
  lemma SameDataTwiceIsNoChange(rev: Revision, info: RepoInfo, fetched: Tree)
    requires Ordered(info)
    ensures Decide(rev, Step(info, Fetch(true)).version, Some(fetched), fetched) == Ok(false)
  {
  }
}
