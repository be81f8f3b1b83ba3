# helm-set-status, modelled in Dafny

`helm-set-status` is a Helm plugin that rewrites the recorded status of one
revision of a Helm release. This project models its core. That core has three parts:

- **Status vocabulary** (`ReleaseStatus`, `release_status.dfy`). The eight statuses the
  command accepts (`ValidStatuses`), their canonical strings in declaration order, the exact and
  case-sensitive parser, and the `", "`-joined hint that lists every valid value.
- **Transition engine** (`StatusEngine`, `status_engine.dfy`). `SetStatus`
  picks one release record: the latest one when the revision is zero or less,
  otherwise the given revision. It checks the optional allowed-from
  precondition. It overwrites the record's status, description and
  timestamp, then writes the record back. Each failure is its own error kind:
  release not found, revision lookup failed, precondition failed, update failed.
  `SetStatus` is a method that takes a `Store`. It is proved equal to the ghost
  function `Transition`, and the promised properties are proved about
  `Transition`.
- **Caller-side classifier** (`Cli`, `cli.dfy`). `runWithConfigFactory`
  checks the target status and every `--from` entry before it calls the
  configuration factory. It then runs `SetStatus`. With `--no-fail`, a
  precondition failure becomes a successful `Skipped:` line. Every other
  error is returned unchanged. On success it writes one of two message shapes.

The Helm store is modelled in `HelmStorage` (`helm_storage.dfy`) as an external
collaborator. A `Store` object holds a map from (release name, revision) to
release record. `Last(name)` returns the record with the highest revision of
that name. This is an assumption about the Helm library, not code of this repository.
`Get(name, revision)` looks up one key. `Update(rec)` overwrites the record
stored under the record's own name and revision. It fails when the key is
absent, or always when the store's `updateFailure` is set (a driver that
refuses writes, as in the update-failure test). The configuration factory is
a function parameter that returns either a store or an error. The clock is an
opaque `now` parameter. Written output is returned as the sequence of strings
written. `Format` (`format.dfy`) holds the parts of Go's `fmt` that the messages
use: joining with a separator, `%q`, `%v` of a slice, and `%d`.

Three facts about the code that a reader might not expect:

- A negative revision goes to `Last`, the same as revision 0
  (pkg/status/status.go:49 tests `revision > 0`).
- `SetStatus` returns only an error. It does not return the record it
  changed.
- The test at cmd/helm-set-status/main_test.go:188-206 expects a warning for a
  missing release under the latest selector. `runWithConfigFactory` never
  prints one: it returns the `SetStatus` error unchanged
  (cmd/helm-set-status/main.go:94).

## Model

| member | source | states |
|---|---|---|
| `ReleaseStatus.ToString` | pkg/status/release.go:10-19 | every status renders to a non-empty string that is one of the eight canonical strings |
| `ReleaseStatus.ParseStatus` | pkg/status/release.go:23-43 | parsing succeeds exactly on the eight canonical strings, and renders back to its input; any other input, the empty string included, gives `Unknown` and the error `"invalid status: " + s` |
| `ReleaseStatus.ParseToString` | pkg/status/release.go:23-40 | round trip: parsing the rendering of any status gives that status with no error |
| `ReleaseStatus.ToStringParse` | pkg/status/release.go:10-40 | round trip: every canonical string parses to a status whose rendering is that string |
| `ReleaseStatus.ToStringInjective` | pkg/status/release.go:23-40 | distinct statuses have distinct strings, so the parser is a bijection on the closed set |
| `ReleaseStatus.ValidStatusesShape` | pkg/status/release.go:10-19 | exactly 8 entries with no duplicates; entry i is the rendering of the i-th status in declaration order; each entry parses; every status is listed |
| `ReleaseStatus.ValidStatusesString` | pkg/status/release.go:47-56 | the loop with its `i > 0` separator guard yields the valid strings joined by `", "` |
| `ReleaseStatus.ValidStatusesStringValue` | pkg/status/release.go:47-56 | the hint is the eight strings in declaration order with one `", "` between each two and none at either end |
| `ReleaseStatus.ValidStatusesStringMentionsAll` | pkg/status/release.go:47-56 | every canonical string occurs in the hint |
| `Format.JoinStartsWithFirst` | pkg/status/release.go:49-54 | a join starts with its first element, so there is no leading separator |
| `Format.JoinEndsWithLast` | pkg/status/release.go:49-54 | a join ends with its last element, so there is no trailing separator |
| `Format.JoinContains` | pkg/status/release.go:49-54 | every element of a join occurs in it |
| `Format.JoinLength` | pkg/status/release.go:49-54 | a join is as long as its elements plus exactly one separator between each two |
| `Format.IntToString` | pkg/status/status.go:53 | `%d`: a non-negative value renders as decimal digits whose value is the number; a negative one as `-` followed by the digits of its magnitude; no leading zeros in either case |
| `HelmStorage.Store.Last` | pkg/status/status.go:57 | fails iff no stored key has that release name; otherwise returns the record with that name's highest revision |
| `HelmStorage.Store.Get` | pkg/status/status.go:51 | succeeds iff `(name, revision)` is stored, and returns that record; otherwise fails with the driver's not-found error |
| `HelmStorage.Store.Update` | pkg/status/status.go:87 | overwrites exactly the record's own key; fails on an absent key or a refusing driver, and then leaves the store unchanged; keeps every record under its own key |
| `StatusEngine.StatusListToStrings` | pkg/status/status.go:32-38 | same length and order as the input; element i is the string of status i |
| `StatusEngine.StatusStringsParseBack` | pkg/status/status.go:32-38 | each string parses back to the status it came from |
| `StatusEngine.Message` | pkg/status/status.go:16-29 | each error kind has its own text: `release "<name>" not found`; `current status "<s>" is not in allowed list: <list>`; for `Errorf` at status.go:53 and 88, `failed to get release <name> revision N: <cause>` and `failed to update release <name>: <cause>`, each given by its prefix and its ending |
| `StatusEngine.PreconditionMessageMentions` | pkg/status/status.go:26-29 | the precondition message contains the current status and every allowed status |
| `StatusEngine.RevisionLookupMessageMentions` | pkg/status/status.go:49-54 | the revision-lookup message contains `failed to get release <name>` and `revision N` |
| `StatusEngine.Resolve` | pkg/status/status.go:49-61 | a resolved record is stored under its own key and has the release's name. For `revision > 0` it resolves iff that exact key is stored, and otherwise gives `RevisionLookupFailed` with the driver's cause. For any other revision it resolves iff the release has some revision, to the highest one, and otherwise gives `ReleaseNotFound(name)` |
| `StatusEngine.Applied` | pkg/status/status.go:82-84 | the new record has the target status, description `"status set to " + target` and timestamp `now`; every other field and the storage key are unchanged |
| `StatusEngine.Transition` | pkg/status/status.go:45-92 | the key set is kept and every record stays under its own key; any error leaves every record as it was; an empty allowed list never causes a precondition failure; a precondition error carries the list as given and a current status not in it; on success exactly the resolved record is replaced by its applied version |
| `StatusEngine.SetStatus` | pkg/status/status.go:45-92 | the returned error and the new store contents are exactly those of `Transition`; the driver setting is unchanged |
| `StatusEngine.ExplicitRevisionRouting` | pkg/status/status.go:49-54 | with `revision > 0`: a revision-lookup failure with the driver's cause iff that key is absent, never `ReleaseNotFound`; on success exactly that revision is rewritten |
| `StatusEngine.LatestRevisionRouting` | pkg/status/status.go:55-60 | with `revision <= 0`, negatives included: `ReleaseNotFound` carrying exactly the name iff the name has no revision, never a revision-lookup failure; on success exactly the highest revision is rewritten |
| `StatusEngine.PreconditionDecides` | pkg/status/status.go:63-79 | once the record resolves, a precondition failure happens iff the list is non-empty and lacks the current status; it then carries that status and the list, and the store is unchanged |
| `StatusEngine.SucceedsIff` | pkg/status/status.go:45-92 | success iff the record resolves, the precondition holds and the driver accepts the write |
| `StatusEngine.UpdateFailureReported` | pkg/status/status.go:86-89 | a refused write is reported as `UpdateFailed(name, cause)`, whose message starts with `failed to update release <name>`, and the store is unchanged |
| `StatusEngine.OtherRevisionsUntouched` | pkg/status/status.go:87 | with an explicit revision, every other stored record is left as it was |
| `StatusEngine.LatestScenario` | pkg/status/status_test.go:113-148 | a release with one deployed revision set to `failed` with the latest selector: success, status `failed`, description `status set to failed` |
| `StatusEngine.SpecificRevisionScenario` | pkg/status/status_test.go:150-203 | setting revision 1 of a two-revision release: revision 1 becomes `failed`, revision 2 stays `deployed` |
| `StatusEngine.PreconditionScenario` | pkg/status/status_test.go:390-425 | a deployed release with allowed list `[pending-upgrade, pending-rollback]`: precondition error with that status and list, store unchanged |
| `Cli.Message` | cmd/helm-set-status/main.go:66-85 | an invalid target gives the parse error then `\nValid statuses: <list>`; an invalid `--from` entry gives `invalid --from status "<s>": <parse error>` then the same ending; a factory failure gives `failed to create configuration: <cause>`; a `SetStatus` error keeps its own text |
| `Cli.InvalidTargetMessageMentions` | cmd/helm-set-status/main.go:66-69 | the message for an invalid target starts with `invalid status: <input>` and contains every valid status string |
| `Cli.ParseFromStatuses` | cmd/helm-set-status/main.go:72-79 | succeeds iff every entry parses; the result then has the same length and holds each entry's status in order; otherwise the error names the first invalid entry, with its parse error and the valid list |
| `Cli.SuccessMessage` | cmd/helm-set-status/main.go:97-101 | starts with `Release "<name>"` and ends with ` status set to "<status>"` and a newline; for `rev > 0` it is `Release "<name>" revision N status set to "<status>"`; it is the revision-less form iff `rev <= 0` |
| `Cli.SuccessMessageMentions` | cmd/helm-set-status/main.go:97-101 | the success line contains the quoted target status, and ` revision N ` when `rev > 0` |
| `Cli.Classify` | cmd/helm-set-status/main.go:88-101 | success with no error iff `SetStatus` succeeded, or failed its precondition with `noFail` set; a skip writes `"Skipped: " + message`; every other error is returned unchanged with nothing written |
| `Cli.SkipOrFail` | cmd/helm-set-status/main.go:88-94 | for one precondition failure, `noFail` gives a skip and no `noFail` gives the error, with the same message, which names the current status and every allowed one |
| `Cli.SkipLeavesStoreUnchanged` | cmd/helm-set-status/main.go:88-93 | a skipped run succeeds, writes a `Skipped: ` line and leaves every record as it was |
| `Cli.RunWithConfigFactory` | cmd/helm-set-status/main.go:61-103 | checks in order: an invalid target gives its parse error plus the valid list; the first invalid `--from` entry gives its error; a factory failure gives `failed to create configuration`. No store is touched on these paths. Otherwise the store becomes `Transition` of the parsed list, in order, and the result is `Classify` of its error |

## Left out

- Kubernetes connectivity, REST client getters, kubeconfig handling and
  `status.NewConfiguration` are I/O and belong to the Helm library. The
  configuration factory is a function parameter.
- Helm storage drivers and record serialization are modelled by the map
  contract in `HelmStorage`. That `Last` returns the highest revision is an
  assumption about the Helm library. The cause for a missing key is the single
  constant `ErrReleaseNotFound`. The Last error's own text is not modelled,
  because `SetStatus` throws it away.
- A stored record's status is one of the eight statuses of `ReleaseStatus`.
  Helm's `release.Status` is an open string type: the Helm library also
  defines `uninstalled`, and a record whose status was never set carries `""`.
  The model cannot hold such records, so the precondition check at
  pkg/status/status.go:68 and the message at pkg/status/status.go:27 are
  modelled only for the eight statuses the command accepts.
- `helmtime.Now()` is the opaque `now` parameter. It feeds no decision.
- Aliasing is not modelled. Helm's memory driver returns the stored record by
  pointer, so the in-place mutation at pkg/status/status.go:82-84 can reach the
  stored copy before `Update` runs. Here records are values, and a failed
  `Update` always leaves the store unchanged.
- Read-modify-write races between concurrent invocations are not modelled.
  The model runs one call at a time.
- CLI plumbing is not modelled: `main`, `os.Exit`, `newRootCmd`'s flag
  registration and help text, `run`'s flag reads, the package-level flag
  variables and the swappable global `ConfigurationFactory`.
- Go formatting is modelled field by field. `%q` adds quotes without Go's
  escape sequences. Go error wrapping (`%w`, `errors.As`) becomes datatype
  constructors: an error from `SetStatus` is kept as it is inside
  `Cli.SetStatusFailed`.
- Cli.RunWithConfigFactory: the factory is a pure function, so "the factory is
  never called" is stated by what can be observed. The result does not depend
  on the factory, and no store is changed.
