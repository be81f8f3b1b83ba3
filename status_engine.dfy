/**
 * The transition engine: `SetStatus` resolves one release record (the
 * latest one, or an explicit revision), checks the optional allowed-from
 * precondition, overwrites the record's status, description and timestamp
 * and writes the record back. Each failure is a distinct error kind.
 */
module StatusEngine {
  import opened Wrappers
  import opened Format
  import opened ReleaseStatus
  import opened HelmStorage

  /** The errors `SetStatus` returns, one constructor per error path. */
  datatype Error =
    | ReleaseNotFound(releaseName: string)
    | RevisionLookupFailed(releaseName: string, revision: int, cause: string)
    | PreconditionFailed(currentStatus: Status, allowedStatuses: seq<Status>)
    | UpdateFailed(releaseName: string, cause: string)

  /** The canonical strings of a list of statuses, position by position. */
  function StatusStrings(statuses: seq<Status>): seq<string> {
    seq(|statuses|, i requires 0 <= i < |statuses| => ToString(statuses[i]))
  }

  /** `statusListToStrings`: fills a slice of the input's length, in order. */
  method StatusListToStrings(statuses: seq<Status>) returns (result: seq<string>)
    ensures |result| == |statuses|
    ensures forall i :: 0 <= i < |statuses| ==> result[i] == ToString(statuses[i])
    ensures result == StatusStrings(statuses)
  {
    var a := new string[|statuses|];
    var i := 0;
    while i < |statuses|
      invariant 0 <= i <= |statuses|
      invariant forall j :: 0 <= j < i ==> a[j] == ToString(statuses[j])
    {
      a[i] := ToString(statuses[i]);
      i := i + 1;
    }
    result := a[..];
  }

  /** Parsing the strings back gives the statuses: no information is lost. */
  lemma StatusStringsParseBack(statuses: seq<Status>, i: int)
    requires 0 <= i < |statuses|
    ensures |StatusStrings(statuses)| == |statuses|
    ensures ParseStatus(StatusStrings(statuses)[i]) == Parsed(statuses[i], None)
  {
    ParseToString(statuses[i]);
  }

  /** The text of each error (`Error()` of the Go error values, with `%q`
      rendered by `Quote` and `%v` of a string slice by `ListString`). */
  function Message(e: Error): (m: string)
    ensures e.ReleaseNotFound? ==>
      StartsWith(m, "release " + Quote(e.releaseName)) && EndsWith(m, " not found")
    ensures e.RevisionLookupFailed? ==>
      StartsWith(m, "failed to get release " + e.releaseName + " revision " + IntToString(e.revision) + ": ")
      && EndsWith(m, e.cause)
    ensures e.PreconditionFailed? ==>
      StartsWith(m, "current status " + Quote(ToString(e.currentStatus)))
      && EndsWith(m, " is not in allowed list: " + ListString(StatusStrings(e.allowedStatuses)))
    ensures e.UpdateFailed? ==>
      StartsWith(m, "failed to update release " + e.releaseName + ": ") && EndsWith(m, e.cause)
  {
    match e
    case ReleaseNotFound(name) =>
      var head, tail := "release " + Quote(name), " not found";
      Affixes(head, tail);
      head + tail
    case RevisionLookupFailed(name, revision, cause) =>
      var head := "failed to get release " + name + " revision " + IntToString(revision) + ": ";
      Affixes(head, cause);
      head + cause
    case PreconditionFailed(current, allowed) =>
      var head := "current status " + Quote(ToString(current));
      var tail := " is not in allowed list: " + ListString(StatusStrings(allowed));
      Affixes(head, tail);
      head + tail
    case UpdateFailed(name, cause) =>
      var head := "failed to update release " + name + ": ";
      Affixes(head, cause);
      head + cause
  }

  /** The precondition message carries the current status and every allowed
      status, literally. */
  lemma PreconditionMessageMentions(current: Status, allowed: seq<Status>)
    ensures Contains(Message(PreconditionFailed(current, allowed)), ToString(current))
    ensures forall i :: 0 <= i < |allowed| ==> Contains(Message(PreconditionFailed(current, allowed)), ToString(allowed[i]))
  {
    var list := ListString(StatusStrings(allowed));
    var head := "current status " + Quote(ToString(current));
    var tail := " is not in allowed list: " + list;
    assert Message(PreconditionFailed(current, allowed)) == head + tail;
    assert head == "current status \"" + ToString(current) + "\"";
    ContainsMiddle("current status \"", ToString(current), "\"");
    ContainsInPrefix(head, tail, ToString(current));
    forall i | 0 <= i < |allowed|
      ensures Contains(Message(PreconditionFailed(current, allowed)), ToString(allowed[i]))
    {
      ListStringMentions(StatusStrings(allowed), i);
      ContainsInSuffix(" is not in allowed list: ", list, ToString(allowed[i]));
      ContainsInSuffix(head, tail, ToString(allowed[i]));
    }
  }

  /** The revision-lookup message names the release and says `revision N`. */
  lemma RevisionLookupMessageMentions(name: string, revision: int, cause: string)
    ensures Contains(Message(RevisionLookupFailed(name, revision, cause)), "failed to get release " + name)
    ensures Contains(Message(RevisionLookupFailed(name, revision, cause)), "revision " + IntToString(revision))
  {
    var m := Message(RevisionLookupFailed(name, revision, cause));
    var head := "failed to get release " + name;
    assert m == head + " revision " + IntToString(revision) + ": " + cause;
    assert OccursAt(m, head, 0);
    ContainsAt(m, head, 0);
    assert OccursAt(m, "revision " + IntToString(revision), |head| + 1);
    ContainsAt(m, "revision " + IntToString(revision), |head| + 1);
  }

  /** The description written on every status change. */
  function Description(target: Status): string {
    "status set to " + ToString(target)
  }

  /** The record after the change: status, description and timestamp are
      overwritten, every other field is kept. */
  function Applied(rel: Release, target: Status, now: Time): (r: Release)
    ensures r.info.status == target
    ensures r.info.description == Description(target)
    ensures r.info.lastDeployed == now
    ensures r.name == rel.name && r.namespace == rel.namespace && r.version == rel.version && r.chart == rel.chart
    ensures r.info.firstDeployed == rel.info.firstDeployed && r.info.notes == rel.info.notes
    ensures KeyOf(r) == KeyOf(rel)
  {
    rel.(info := rel.info.(status := target, description := Description(target), lastDeployed := now))
  }

  /** Step 1 of `SetStatus`: the record to change. A positive `revision`
      selects that revision through `Get`; any other value selects the latest
      through `Last`, whose own error is replaced by `ReleaseNotFound`. */
  ghost function Resolve(db: map<Key, Release>, name: string, revision: int): (r: Result<Release, Error>)
    requires WellKeyed(db)
    // A resolved record is stored under its own key and belongs to the release.
    ensures r.Success? ==> KeyOf(r.value) in db && db[KeyOf(r.value)] == r.value && r.value.name == name
    // A positive revision resolves iff that exact revision is stored.
    ensures revision > 0 ==> (r.Success? <==> Key(name, revision) in db)
    ensures revision > 0 && r.Success? ==> r.value.version == revision
    ensures revision > 0 && r.Failure? ==> r.error == RevisionLookupFailed(name, revision, ErrReleaseNotFound)
    // Any other revision resolves iff the release has a revision at all, to its highest one.
    ensures revision <= 0 ==> (r.Success? <==> exists k :: k in db && k.name == name)
    ensures revision <= 0 && r.Success? ==> forall k :: k in db && k.name == name ==> k.revision <= r.value.version
    ensures revision <= 0 && r.Failure? ==> r.error == ReleaseNotFound(name)
  {
    if revision > 0 then
      match GetSpec(db, name, revision)
      case Failure(cause) => Failure(RevisionLookupFailed(name, revision, cause))
      case Success(rel) => Success(rel)
    else
      match LastSpec(db, name)
      case Failure(_) =>
        assert forall k :: k in db && k.name == name ==> k.revision in Revisions(db, name);
        Failure(ReleaseNotFound(name))
      case Success(rel) =>
        assert Key(name, MaxOf(Revisions(db, name))) in db;
        assert forall k :: k in db && k.name == name ==> k.revision in Revisions(db, name);
        Success(rel)
  }

  /** The outcome of one `SetStatus` call: its error, if any, and the
      store's records afterwards. */
  datatype Outcome = Outcome(err: Option<Error>, releases: map<Key, Release>)

  /** The whole effect of `SetStatus` on a store holding `db` whose driver
      fails updates with `updateFailure`, if that is set. */
  ghost function Transition(
    db: map<Key, Release>, updateFailure: Option<string>,
    name: string, target: Status, revision: int, allowed: seq<Status>, now: Time): (o: Outcome)
    requires WellKeyed(db)
    ensures WellKeyed(o.releases) && o.releases.Keys == db.Keys
    // Every failure leaves every record as it was.
    ensures o.err.Some? ==> o.releases == db
    // An empty allowed-from list never makes the precondition fail.
    ensures |allowed| == 0 ==> !(o.err.Some? && o.err.value.PreconditionFailed?)
    // A precondition failure reports the current status and the list as given.
    ensures o.err.Some? && o.err.value.PreconditionFailed? ==>
      o.err.value.allowedStatuses == allowed && o.err.value.currentStatus !in allowed
    // Only the resolved record changes, and it changes to the applied record.
    ensures o.err.None? ==>
      Resolve(db, name, revision).Success? &&
      var rel := Resolve(db, name, revision).value;
      KeyOf(rel) in db && db[KeyOf(rel)] == rel &&
      o.releases == db[KeyOf(rel) := Applied(rel, target, now)]
  {
    match Resolve(db, name, revision)
    case Failure(e) => Outcome(Some(e), db)
    case Success(rel) =>
      if |allowed| > 0 && rel.info.status !in allowed then
        Outcome(Some(PreconditionFailed(rel.info.status, allowed)), db)
      else
        match UpdateSpec(db, updateFailure, Applied(rel, target, now))
        case Failure(cause) => Outcome(Some(UpdateFailed(name, cause)), db)
        case Success(db') => Outcome(None, db')
  }

  /** `SetStatus`. `now` stands for `helmtime.Now()`. */
  method SetStatus(
    store: Store, releaseName: string, status: Status, revision: int,
    allowedFromStatuses: seq<Status>, now: Time) returns (err: Option<Error>)
    requires store.Valid()
    modifies store
    ensures store.Valid() && store.updateFailure == old(store.updateFailure)
    ensures Transition(old(store.releases), store.updateFailure, releaseName, status, revision, allowedFromStatuses, now)
            == Outcome(err, store.releases)
  {
    var rel: Release;
    if revision > 0 {
      var got := store.Get(releaseName, revision);
      if got.Failure? {
        return Some(RevisionLookupFailed(releaseName, revision, got.error));
      }
      rel := got.value;
    } else {
      var got := store.Last(releaseName);
      if got.Failure? {
        return Some(ReleaseNotFound(releaseName));
      }
      rel := got.value;
    }

    if |allowedFromStatuses| > 0 {
      var currentStatus := rel.info.status;
      var allowed := false;
      var i := 0;
      while i < |allowedFromStatuses|
        invariant 0 <= i <= |allowedFromStatuses|
        invariant !allowed
        invariant forall j :: 0 <= j < i ==> allowedFromStatuses[j] != currentStatus
      {
        if currentStatus == allowedFromStatuses[i] {
          allowed := true;
          break;
        }
        i := i + 1;
      }
      if !allowed {
        return Some(PreconditionFailed(currentStatus, allowedFromStatuses));
      }
    }

    rel := rel.(info := rel.info.(status := status, description := "status set to " + ToString(status), lastDeployed := now));

    var updateErr := store.Update(rel);
    if updateErr.Some? {
      return Some(UpdateFailed(releaseName, updateErr.value));
    }
    return None;
  }

  /** With a positive revision only `Get` is consulted: a missing key yields
      a revision-lookup failure carrying the driver's cause, never
      `ReleaseNotFound`, and a success rewrites exactly that revision. */
  lemma ExplicitRevisionRouting(
    db: map<Key, Release>, updateFailure: Option<string>,
    name: string, target: Status, revision: int, allowed: seq<Status>, now: Time)
    requires WellKeyed(db) && revision > 0
    ensures var o := Transition(db, updateFailure, name, target, revision, allowed, now);
      && (o.err == Some(RevisionLookupFailed(name, revision, ErrReleaseNotFound)) <==> Key(name, revision) !in db)
      && !(o.err.Some? && o.err.value.ReleaseNotFound?)
      && (o.err.None? ==> o.releases == db[Key(name, revision) := Applied(db[Key(name, revision)], target, now)])
  {
  }

  /** With a revision of zero or less the latest record is used: the call
      fails with `ReleaseNotFound` carrying exactly the name iff the name has
      no revision, and a success rewrites the highest revision. */
  lemma LatestRevisionRouting(
    db: map<Key, Release>, updateFailure: Option<string>,
    name: string, target: Status, revision: int, allowed: seq<Status>, now: Time)
    requires WellKeyed(db) && revision <= 0
    ensures var o := Transition(db, updateFailure, name, target, revision, allowed, now);
      && (o.err == Some(ReleaseNotFound(name)) <==> Revisions(db, name) == {})
      && !(o.err.Some? && o.err.value.RevisionLookupFailed?)
      && (o.err.None? ==>
            Revisions(db, name) != {} &&
            var latest := Key(name, MaxOf(Revisions(db, name)));
            o.releases == db[latest := Applied(db[latest], target, now)])
  {
  }

  /** Once the record is resolved, the precondition fails iff the list is
      non-empty and does not hold the current status; the error then carries
      that status and the list as given, and nothing is written. */
  lemma PreconditionDecides(
    db: map<Key, Release>, updateFailure: Option<string>,
    name: string, target: Status, revision: int, allowed: seq<Status>, now: Time)
    requires WellKeyed(db) && Resolve(db, name, revision).Success?
    ensures var o := Transition(db, updateFailure, name, target, revision, allowed, now);
      var current := Resolve(db, name, revision).value.info.status;
      && ((o.err.Some? && o.err.value.PreconditionFailed?) <==> |allowed| > 0 && current !in allowed)
      && (|allowed| > 0 && current !in allowed ==> o == Outcome(Some(PreconditionFailed(current, allowed)), db))
  {
  }

  /** The call succeeds iff the record resolves, the precondition holds and
      the driver accepts the write. */
  lemma SucceedsIff(
    db: map<Key, Release>, updateFailure: Option<string>,
    name: string, target: Status, revision: int, allowed: seq<Status>, now: Time)
    requires WellKeyed(db)
    ensures Transition(db, updateFailure, name, target, revision, allowed, now).err.None?
      <==> && Resolve(db, name, revision).Success?
           && (|allowed| == 0 || Resolve(db, name, revision).value.info.status in allowed)
           && updateFailure.None?
  {
  }

  /** A refused write is reported as an update failure of the release, with
      the driver's cause, and the store is unchanged. */
  lemma UpdateFailureReported(
    db: map<Key, Release>, updateFailure: Option<string>,
    name: string, target: Status, revision: int, allowed: seq<Status>, now: Time)
    requires WellKeyed(db) && Resolve(db, name, revision).Success?
    requires |allowed| == 0 || Resolve(db, name, revision).value.info.status in allowed
    requires updateFailure.Some?
    ensures Transition(db, updateFailure, name, target, revision, allowed, now)
            == Outcome(Some(UpdateFailed(name, updateFailure.value)), db)
    ensures Message(UpdateFailed(name, updateFailure.value))[..|"failed to update release " + name|]
            == "failed to update release " + name
  {
  }

  /** Changing revision `revision` leaves every other record, and so every
      other revision's status, as it was. */
  lemma OtherRevisionsUntouched(
    db: map<Key, Release>, updateFailure: Option<string>,
    name: string, target: Status, revision: int, allowed: seq<Status>, now: Time, k: Key)
    requires WellKeyed(db) && revision > 0
    requires k in db && k != Key(name, revision)
    ensures Transition(db, updateFailure, name, target, revision, allowed, now).releases[k] == db[k]
  {
  }

  /** Two stored revisions of one release, at the given statuses. */
  function TwoRevisions(name: string, first: Status, second: Status): map<Key, Release> {
    map[Key(name, 1) := Release(name, "default", 1, Info(first, "", 0, 0, ""), "test-chart"),
        Key(name, 2) := Release(name, "default", 2, Info(second, "", 0, 0, ""), "test-chart")]
  }

  /** One stored revision of one release. */
  function OneRevision(name: string, st: Status): map<Key, Release> {
    map[Key(name, 1) := Release(name, "default", 1, Info(st, "", 0, 0, ""), "test-chart")]
  }

  lemma OneRevisionLatest(name: string, st: Status)
    ensures WellKeyed(OneRevision(name, st))
    ensures Revisions(OneRevision(name, st), name) == {1}
    ensures MaxOf(Revisions(OneRevision(name, st), name)) == 1
  {
    assert Key(name, 1) in OneRevision(name, st);
  }

  /** Setting the latest revision of a one-revision release to `failed`
      succeeds and writes the status and description. */
  lemma LatestScenario()
    ensures var o := Transition(OneRevision("r1", Deployed), None, "r1", Failed, 0, [], 7);
      o.err.None? && o.releases[Key("r1", 1)].info.status == Failed
      && o.releases[Key("r1", 1)].info.description == "status set to failed"
  {
    OneRevisionLatest("r1", Deployed);
  }

  /** Setting revision 1 of a two-revision release changes revision 1 only. */
  lemma SpecificRevisionScenario()
    ensures WellKeyed(TwoRevisions("r2", Superseded, Deployed))
    ensures var o := Transition(TwoRevisions("r2", Superseded, Deployed), None, "r2", Failed, 1, [], 7);
      o.err.None? && o.releases[Key("r2", 1)].info.status == Failed
      && o.releases[Key("r2", 2)].info.status == Deployed
  {
  }

  /** A deployed release with allowed-from `[pending-upgrade, pending-rollback]`
      is refused with that status and list, and is left as it was. */
  lemma PreconditionScenario()
    ensures var o := Transition(OneRevision("r3", Deployed), None, "r3", Failed, 0, [PendingUpgrade, PendingRollback], 7);
      o == Outcome(Some(PreconditionFailed(Deployed, [PendingUpgrade, PendingRollback])), OneRevision("r3", Deployed))
  {
    OneRevisionLatest("r3", Deployed);
  }
}
