/**
 * `CaseFile`: one tracked query, mirrored in a directory that holds the `.pmr` marker and
 * the `data.repr` snapshot. The file system is the `Store` object; the SOAP call's answer
 * is an input of `UpdateRepo`.
 */
module Repository {
  import opened Wrappers
  import opened Errors
  import opened Marker
  import opened Normalizer
  import opened Lifecycle
  import FileId

  type Path = string

  /**
   * The part of the file system a repository touches: the directories that exist, and per
   * directory the text of its `.pmr` marker and the unpickled content of its `data.repr`.
   */
  class Store {
    var dirs: set<Path>
    var markers: map<Path, string>
    var snapshots: map<Path, Tree>

    /** A file only exists inside an existing directory. */
    ghost predicate Valid()
      reads this
    {
      markers.Keys <= dirs && snapshots.Keys <= dirs
    }

    constructor (dirs: set<Path>, markers: map<Path, string>, snapshots: map<Path, Tree>)
      requires markers.Keys <= dirs && snapshots.Keys <= dirs
      ensures Valid()
      ensures this.dirs == dirs && this.markers == markers && this.snapshots == snapshots
    {
      this.dirs, this.markers, this.snapshots := dirs, markers, snapshots;
    }

    /** `CaseFile.repo_exists`: the directory exists and holds a `.pmr` marker. */
    function RepoExists(path: Path): (r: bool)
      reads this
      ensures r ==> path in markers
      ensures Valid() ==> (r <==> path in markers)
    {
      path in dirs && path in markers
    }

    /** Reading `data.repr`: `None` when the file is not there (the `IOError` case). */
    function Snapshot(path: Path): (r: Option<Tree>)
      reads this
    {
      if path in snapshots then Some(snapshots[path]) else None
    }
  }

  class CaseFile {
    const store: Store
    const path: Path
    const repoType: int
    const criteria: string
    const repoVersion: int
    var version: int
    var ackVersion: int

    /** The fields `_update_repo_info` persists. */
    function Info(): RepoInfo
      reads this
    {
      RepoInfo(repoType, repoVersion, criteria, version, ackVersion)
    }

    ghost predicate Valid()
      reads this, store
    {
      store.Valid() && path in store.dirs
    }

    constructor (store: Store, path: Path, info: RepoInfo)
      ensures this.store == store && this.path == path && Info() == info
    {
      this.store := store;
      this.path := path;
      this.repoType := info.repoType;
      this.criteria := info.criteria;
      this.repoVersion := info.repoVersion;
      this.version := info.version;
      this.ackVersion := info.ackVersion;
    }

    /** `has_unread_info`: what `mark_repo` would report, for a repository whose counters are ordered. */
    function HasUnreadInfo(): (r: bool)
      reads this
      ensures r ==> HasNews(Info())
      ensures Ordered(Info()) ==> (r <==> HasNews(Info()))
    {
      Unread(Info())
    }

    /** `_update_repo_info`: rewrites the `.pmr` marker from the fields. */
    method UpdateRepoInfo()
      requires Valid()
      modifies store`markers
      ensures Valid()
      ensures store.markers == old(store.markers)[path := Serialize(Info())]
    {
      store.markers := store.markers[path := Serialize(Info())];
    }

    /**
     * `create_repo`: the file number is checked first (search criteria are never checked),
     * then an existing marker is refused; only then is the directory made and the marker of
     * a fresh repository written. Nothing is written on either failure.
     */
    static method CreateRepo(store: Store, path: Path, criteria: string, repoType: int)
      returns (r: Result<CaseFile, Failure>)
      requires store.Valid()
      modifies store
      ensures store.Valid()
      ensures repoType == REPO_TYPE_FILE && !FileId.ValidateId(criteria) ==>
        r == Err(InvalidFileNumber(criteria)) && unchanged(store)
      ensures (repoType != REPO_TYPE_FILE || FileId.ValidateId(criteria)) && old(store.RepoExists(path)) ==>
        r == Err(AlreadyExists(path)) && unchanged(store)
      ensures r.Ok? <==> (repoType != REPO_TYPE_FILE || FileId.ValidateId(criteria)) && !old(store.RepoExists(path))
      ensures r.Ok? ==>
        fresh(r.value) && r.value.Valid() &&
        r.value.store == store && r.value.path == path &&
        r.value.Info() == Initial(repoType, criteria) &&
        store.dirs == old(store.dirs) + {path} &&
        store.markers == old(store.markers)[path := Serialize(Initial(repoType, criteria))] &&
        store.snapshots == old(store.snapshots)
    {
      if repoType == REPO_TYPE_FILE && !FileId.ValidateId(criteria) {
        return Err(InvalidFileNumber(criteria));
      }
      if store.RepoExists(path) {
        return Err(AlreadyExists(path));
      }
      if path !in store.dirs {
        store.dirs := store.dirs + {path};
      }
      var caseFile := new CaseFile(store, path, Initial(repoType, criteria));
      caseFile.UpdateRepoInfo();
      return Ok(caseFile);
    }

    /**
     * `load_repo`: `None` without a marker; otherwise the marker's lines are read into a
     * dictionary and decoded, and any failure (a malformed line, a missing key, a bad
     * integer, an unsupported repoVersion) is raised before a repository is built.
     */
    static method LoadRepo(store: Store, path: Path) returns (r: Result<Option<CaseFile>, Failure>)
      requires store.Valid()
      ensures !store.RepoExists(path) ==> r == Ok(None)
      ensures store.RepoExists(path) && LoadMarker(store.markers[path]).Err? ==>
        r == Err(LoadMarker(store.markers[path]).error)
      ensures store.RepoExists(path) && LoadMarker(store.markers[path]).Ok? ==>
        r.Ok? && r.value.Some? &&
        fresh(r.value.value) && r.value.value.Valid() &&
        r.value.value.store == store && r.value.value.path == path &&
        r.value.value.Info() == LoadMarker(store.markers[path]).value
    {
      if !store.RepoExists(path) {
        return Ok(None);
      }
      var info := ReadInfo(store.markers[path]);
      if info.Err? {
        return Err(info.error);
      }
      var decoded := Decode(info.value);
      if decoded.Err? {
        return Err(decoded.error);
      }
      var caseFile := new CaseFile(store, path, decoded.value);
      return Ok(Some(caseFile));
    }

    /**
     * `update_repo` of either revision, with the SOAP call's answer as `data` (`None` when
     * the call failed). Without data nothing happens. Otherwise the response is normalised
     * and compared; on a change the version goes up by one, the marker is rewritten, then
     * the snapshot. Without a change, or when the earlier revision cannot read the old
     * snapshot, nothing is written.
     */
    method UpdateRepo<S>(rev: Revision, data: Option<Object<S>>, encode: string -> string, show: S -> string)
      returns (r: Result<bool, Failure>)
      requires Valid()
      modifies this`version, store`markers, store`snapshots
      ensures Valid()
      ensures !HasData(rev, data) ==> r == Ok(false)
      ensures HasData(rev, data) ==>
        r == Decide(rev, old(version), old(store.Snapshot(path)), NormalizeObject(data.value, encode, show))
      ensures Info() == Step(old(Info()), Fetch(r == Ok(true)))
      ensures r == Ok(true) ==>
        data.Some? &&
        store.markers == old(store.markers)[path := Serialize(Info())] &&
        store.snapshots == old(store.snapshots)[path := NormalizeObject(data.value, encode, show)]
      ensures r != Ok(true) ==> store.markers == old(store.markers) && store.snapshots == old(store.snapshots)
    {
      if !HasData(rev, data) {
        return Ok(false);
      }
      var fetched := PickleSuds(data.value, encode, show);
      var changed: bool;
      if version == 0 {
        changed := true;
      } else {
        var stored := store.Snapshot(path);
        if rev == Earlier && stored.None? {
          return Err(SnapshotUnreadable);
        }
        changed := stored != Some(fetched);
      }
      if changed {
        version := version + 1;
        UpdateRepoInfo();
        store.snapshots := store.snapshots[path := fetched];
      }
      r := Ok(changed);
    }

    /**
     * `mark_repo`: reports whether the version differs from the acknowledged one, then
     * acknowledges it; the marker is rewritten only when there was news.
     */
    method MarkRepo() returns (news: bool)
      requires Valid()
      modifies this`ackVersion, store`markers
      ensures Valid()
      ensures news == HasNews(old(Info()))
      ensures Info() == Step(old(Info()), Mark)
      ensures !HasUnreadInfo()
      ensures store.markers == if news then old(store.markers)[path := Serialize(Info())] else old(store.markers)
    {
      news := version != ackVersion;
      if news {
        ackVersion := version;
        UpdateRepoInfo();
      }
    }
  }

  /**
   * Two updates in a row with the same response: whatever the first reports, the second
   * reports no change and leaves the version where the first put it.
   */
  method UpdateTwice<S>(caseFile: CaseFile, rev: Revision, data: Object<S>, encode: string -> string, show: S -> string)
    returns (first: Result<bool, Failure>, second: Result<bool, Failure>)
    requires caseFile.Valid() && Ordered(caseFile.Info())
    requires HasData(rev, Some(data))
    modifies caseFile, caseFile.store
    ensures first.Ok? ==> second == Ok(false)
    ensures caseFile.version == old(caseFile.version) + (if first == Ok(true) then 1 else 0)
  {
    first := caseFile.UpdateRepo(rev, Some(data), encode, show);
    second := caseFile.UpdateRepo(rev, Some(data), encode, show);
  }

  /**
   * A repository created, updated with news and acknowledged: the marker on disk loads back
   * to exactly the object's counters, and nothing is unread.
   */
  method CreateUpdateMark<S>(store: Store, path: Path, criteria: string, data: Object<S>,
                             encode: string -> string, show: S -> string)
    returns (created: Result<CaseFile, Failure>, news: bool)
    requires store.Valid() && !store.RepoExists(path)
    requires FileId.ValidateId(criteria) && '\n' !in criteria
    requires data.fields != map[]
    modifies store
    ensures created.Ok? && news
    ensures created.value.Info() == RepoInfo(REPO_TYPE_FILE, REPO_VERSION, criteria, 1, 1)
    ensures path in store.markers && LoadMarker(store.markers[path]) == Ok(created.value.Info())
    ensures !created.value.HasUnreadInfo()
  {
    created := CaseFile.CreateRepo(store, path, criteria, REPO_TYPE_FILE);
    var caseFile := created.value;
    var changed := caseFile.UpdateRepo(Latest, Some(data), encode, show);
    assert changed == Ok(true);
    news := caseFile.MarkRepo();
    LoadInvertsSerialize(caseFile.Info());
  }
}
