/**
 * The Helm release store as the core sees it: release records keyed by
 * release name and revision, with a latest-revision lookup, a lookup by
 * revision and an overwriting update. The store belongs to the Helm library;
 * this module states the contract the core relies on, not the library's
 * drivers.
 */
module HelmStorage {
  import opened Wrappers
  import opened ReleaseStatus

  /** A timestamp; opaque to the core, which only ever writes one. */
  type Time = int

  /** `release.Info`: the status part of a release record. */
  datatype Info = Info(
    status: Status,
    description: string,
    firstDeployed: Time,
    lastDeployed: Time,
    notes: string)

  /** `release.Release`: one revision (`Version`) of a named release. */
  datatype Release = Release(
    name: string,
    namespace: string,
    version: int,
    info: Info,
    chart: string)

  /** The storage key of a record: its release name and its revision. */
  datatype Key = Key(name: string, revision: int)

  function KeyOf(rel: Release): Key {
    Key(rel.name, rel.version)
  }

  /** The error of the Helm drivers for a key they do not hold. */
  const ErrReleaseNotFound: string := "release: not found"

  /** Every record is stored under its own name and revision. */
  ghost predicate WellKeyed(db: map<Key, Release>) {
    forall k :: k in db ==> KeyOf(db[k]) == k
  }

  /** The revisions stored for a release name. */
  ghost function Revisions(db: map<Key, Release>, name: string): set<int> {
    set k | k in db && k.name == name :: k.revision
  }

  lemma HasElement(s: set<int>)
    requires s != {}
    ensures exists x :: x in s
  {
    assert (forall x :: x !in s) ==> s == {};
  }

  /** The largest element of a non-empty finite set. */
  ghost function MaxOf(s: set<int>): (m: int)
    requires s != {}
    ensures m in s && forall y :: y in s ==> y <= m
  {
    HasElement(s);
    var x :| x in s;
    if s == {x} then x
    else
      var m := MaxOf(s - {x});
      assert forall y :: y in s ==> y == x || y in s - {x};
      if x < m then m else x
  }

  /** `Storage.Last`: the record with the highest revision of `name`, or an
      error when the name has no revision. That the latest record is the one
      with the highest revision is the Helm library's behaviour. */
  ghost function LastSpec(db: map<Key, Release>, name: string): Result<Release, string> {
    if Revisions(db, name) == {} then Failure(ErrReleaseNotFound)
    else Success(db[Key(name, MaxOf(Revisions(db, name)))])
  }

  /** `Storage.Get`: the record stored under `(name, version)`. */
  ghost function GetSpec(db: map<Key, Release>, name: string, version: int): Result<Release, string> {
    if Key(name, version) in db then Success(db[Key(name, version)]) else Failure(ErrReleaseNotFound)
  }

  /** `Storage.Update`: overwrite the record stored under the record's own
      key. A driver that refuses writes fails with its own cause; a key the
      store does not hold fails with `ErrReleaseNotFound`. */
  ghost function UpdateSpec(db: map<Key, Release>, failure: Option<string>, rel: Release): Result<map<Key, Release>, string> {
    if failure.Some? then Failure(failure.value)
    else if KeyOf(rel) !in db then Failure(ErrReleaseNotFound)
    else Success(db[KeyOf(rel) := rel])
  }

  /** A store over one storage driver. `updateFailure` models a driver whose
      `Update` always fails with the given cause. */
  class Store {
    var releases: map<Key, Release>
    var updateFailure: Option<string>

    ghost predicate Valid()
      reads this
    {
      WellKeyed(releases)
    }

    constructor (releases: map<Key, Release>, updateFailure: Option<string>)
      requires WellKeyed(releases)
      ensures Valid()
      ensures this.releases == releases && this.updateFailure == updateFailure
    {
      this.releases := releases;
      this.updateFailure := updateFailure;
    }

    /** `Last(name)`: scans the stored keys for the highest revision of
        `name`. */
    method Last(name: string) returns (r: Result<Release, string>)
      ensures r.Failure? <==> forall k :: k in releases ==> k.name != name
      ensures r == LastSpec(releases, name)
    {
      var keys := releases.Keys;
      var best: Option<Key> := None;
      while keys != {}
        invariant keys <= releases.Keys
        invariant best.None? ==> forall k :: k in releases.Keys - keys ==> k.name != name
        invariant best.Some? ==> best.value in releases && best.value.name == name
        invariant best.Some? ==> forall k :: k in releases.Keys - keys && k.name == name ==> k.revision <= best.value.revision
        decreases keys
      {
        var k :| k in keys;
        if k.name == name && (best.None? || best.value.revision < k.revision) {
          best := Some(k);
        }
        keys := keys - {k};
      }
      if best.None? {
        assert forall k :: k in releases ==> k.name != name;
        r := Failure(ErrReleaseNotFound);
      } else {
        ghost var revs := Revisions(releases, name);
        assert best.value.revision in revs;
        ghost var m := MaxOf(revs);
        ghost var km :| km in releases && km.name == name && km.revision == m;
        assert best.value == Key(name, m);
        r := Success(releases[best.value]);
      }
    }

    /** `Get(name, version)`: the record under that key, if any. */
    method Get(name: string, version: int) returns (r: Result<Release, string>)
      ensures r.Success? <==> Key(name, version) in releases
      ensures r.Success? ==> r.value == releases[Key(name, version)]
      ensures r.Failure? ==> r.error == ErrReleaseNotFound
    {
      if Key(name, version) in releases {
        r := Success(releases[Key(name, version)]);
      } else {
        r := Failure(ErrReleaseNotFound);
      }
    }

    /** `Update(rel)`: overwrites the record under `rel`'s own key. */
    method Update(rel: Release) returns (err: Option<string>)
      requires Valid()
      modifies this`releases
      ensures Valid()
      ensures match UpdateSpec(old(releases), updateFailure, rel)
              case Failure(c) => err == Some(c) && releases == old(releases)
              case Success(db) => err.None? && releases == db
    {
      if updateFailure.Some? {
        return updateFailure;
      }
      if KeyOf(rel) !in releases {
        return Some(ErrReleaseNotFound);
      }
      releases := releases[KeyOf(rel) := rel];
      err := None;
    }
  }
}
