/**
 * The status vocabulary of the command: the eight Helm release statuses it
 * accepts (`ValidStatuses`), their canonical strings, the case-sensitive parser and the
 * comma-separated hint listing every valid value.
 */
module ReleaseStatus {
  import opened Wrappers
  import opened Format

  /** The values of Helm's `release.Status` that the command accepts, one
      constructor per canonical string. */
  datatype Status =
    | Unknown
    | Deployed
    | Superseded
    | Failed
    | Uninstalling
    | PendingInstall
    | PendingUpgrade
    | PendingRollback

  /** The eight canonical strings, in declaration order. */
  const ValidStatuses: seq<string> := [
    "unknown",
    "deployed",
    "superseded",
    "failed",
    "uninstalling",
    "pending-install",
    "pending-upgrade",
    "pending-rollback"
  ]

  /** The eight values, in the same order as `ValidStatuses`. */
  const AllStatuses: seq<Status> := [
    Unknown, Deployed, Superseded, Failed,
    Uninstalling, PendingInstall, PendingUpgrade, PendingRollback
  ]

  /** `Status.String()`: the canonical string of a value. */
  function ToString(st: Status): (s: string)
    ensures s in ValidStatuses
    ensures s != ""
  {
    match st
    case Unknown => "unknown"
    case Deployed => "deployed"
    case Superseded => "superseded"
    case Failed => "failed"
    case Uninstalling => "uninstalling"
    case PendingInstall => "pending-install"
    case PendingUpgrade => "pending-upgrade"
    case PendingRollback => "pending-rollback"
  }

  /** What `ParseStatus` returns: Go's pair of a status and an optional error. */
  datatype Parsed = Parsed(status: Status, err: Option<string>)

  /** `ParseStatus`: an exact, case-sensitive match against the canonical
      strings. Any other input, the empty string included, yields
      `Unknown` together with an "invalid status" error. */
  function ParseStatus(s: string): (r: Parsed)
    ensures r.err.None? <==> s in ValidStatuses
    ensures r.err.None? ==> ToString(r.status) == s
    ensures r.err.Some? ==> r.status == Unknown && r.err.value == "invalid status: " + s
  {
    match s
    case "unknown" => Parsed(Unknown, None)
    case "deployed" => Parsed(Deployed, None)
    case "superseded" => Parsed(Superseded, None)
    case "failed" => Parsed(Failed, None)
    case "uninstalling" => Parsed(Uninstalling, None)
    case "pending-install" => Parsed(PendingInstall, None)
    case "pending-upgrade" => Parsed(PendingUpgrade, None)
    case "pending-rollback" => Parsed(PendingRollback, None)
    case _ => Parsed(Unknown, Some("invalid status: " + s))
  }

  /** Rendering a value and parsing it back gives the value, without error. */
  lemma ParseToString(st: Status)
    ensures ParseStatus(ToString(st)) == Parsed(st, None)
  {
  }

  /** Parsing a canonical string and rendering the value gives the string. */
  lemma ToStringParse(s: string)
    requires s in ValidStatuses
    ensures ToString(ParseStatus(s).status) == s
  {
  }

  /** Distinct values have distinct strings, so parsing is a bijection
      between the canonical strings and the values. */
  lemma ToStringInjective(a: Status, b: Status)
    ensures ToString(a) == ToString(b) ==> a == b
  {
    ParseToString(a);
    ParseToString(b);
  }

  /** `ValidStatuses` has eight entries, no two equal, each the rendering of
      the value in the same position of the declaration order, each accepted
      by `ParseStatus`; every value occurs in it. */
  lemma ValidStatusesShape()
    ensures |ValidStatuses| == 8 == |AllStatuses|
    ensures forall i, j :: 0 <= i < j < |ValidStatuses| ==> ValidStatuses[i] != ValidStatuses[j]
    ensures forall i :: 0 <= i < 8 ==> ValidStatuses[i] == ToString(AllStatuses[i])
    ensures forall i :: 0 <= i < 8 ==> ParseStatus(ValidStatuses[i]) == Parsed(AllStatuses[i], None)
    ensures forall st: Status :: st in AllStatuses
  {
    forall st: Status ensures st in AllStatuses {
      match st
      case Unknown => assert AllStatuses[0] == st;
      case Deployed => assert AllStatuses[1] == st;
      case Superseded => assert AllStatuses[2] == st;
      case Failed => assert AllStatuses[3] == st;
      case Uninstalling => assert AllStatuses[4] == st;
      case PendingInstall => assert AllStatuses[5] == st;
      case PendingUpgrade => assert AllStatuses[6] == st;
      case PendingRollback => assert AllStatuses[7] == st;
    }
  }

  /** `ValidStatusesString`: the canonical strings joined with ", ". */
  method ValidStatusesString() returns (result: string)
    ensures result == Join(ValidStatuses, ", ")
  {
    result := "";
    var i := 0;
    while i < |ValidStatuses|
      invariant 0 <= i <= |ValidStatuses|
      invariant result == Join(ValidStatuses[..i], ", ")
    {
      if i > 0 {
        result := result + ", ";
      }
      result := result + ValidStatuses[i];
      assert ValidStatuses[..i + 1][..i] == ValidStatuses[..i];
      i := i + 1;
    }
    assert ValidStatuses[..i] == ValidStatuses;
  }

  /** The hint written out: the eight strings in declaration order with one
      ", " between each two and none at either end. */
  lemma ValidStatusesStringValue()
    ensures Join(ValidStatuses, ", ") ==
      "unknown" + ", " + "deployed" + ", " + "superseded" + ", " + "failed" + ", " +
      "uninstalling" + ", " + "pending-install" + ", " + "pending-upgrade" + ", " + "pending-rollback"
  {
    assert Join(ValidStatuses[..1], ", ") == "unknown";
    assert ValidStatuses[..2][..1] == ValidStatuses[..1];
    assert Join(ValidStatuses[..2], ", ") == "unknown" + ", " + "deployed";
    assert ValidStatuses[..3][..2] == ValidStatuses[..2];
    assert Join(ValidStatuses[..3], ", ") == "unknown" + ", " + "deployed" + ", " + "superseded";
    assert ValidStatuses[..4][..3] == ValidStatuses[..3];
    assert Join(ValidStatuses[..4], ", ") == "unknown" + ", " + "deployed" + ", " + "superseded" + ", " + "failed";
    assert ValidStatuses[..5][..4] == ValidStatuses[..4];
    assert Join(ValidStatuses[..5], ", ") == "unknown" + ", " + "deployed" + ", " + "superseded" + ", " + "failed" + ", " + "uninstalling";
    assert ValidStatuses[..6][..5] == ValidStatuses[..5];
    assert Join(ValidStatuses[..6], ", ") == "unknown" + ", " + "deployed" + ", " + "superseded" + ", " + "failed" + ", " + "uninstalling" + ", " + "pending-install";
    assert ValidStatuses[..7][..6] == ValidStatuses[..6];
    assert Join(ValidStatuses[..7], ", ") == "unknown" + ", " + "deployed" + ", " + "superseded" + ", " + "failed" + ", " + "uninstalling" + ", " + "pending-install" + ", " + "pending-upgrade";
    assert ValidStatuses[..8][..7] == ValidStatuses[..7];
    assert Join(ValidStatuses[..8], ", ") == "unknown" + ", " + "deployed" + ", " + "superseded" + ", " + "failed" + ", " + "uninstalling" + ", " + "pending-install" + ", " + "pending-upgrade" + ", " + "pending-rollback";
    assert ValidStatuses[..8] == ValidStatuses;
  }

  /** Every canonical string occurs in the hint. */
  lemma ValidStatusesStringMentionsAll(i: int)
    requires 0 <= i < |ValidStatuses|
    ensures Contains(Join(ValidStatuses, ", "), ValidStatuses[i])
  {
    JoinContains(ValidStatuses, ", ", i);
  }
}
