/**
 * The caller side of `helm-set-status`: `runWithConfigFactory` validates
 * the target status and every `--from` entry, obtains a store from the
 * configuration factory, runs `SetStatus`, turns a precondition failure into
 * a "Skipped" success when `--no-fail` is set, and writes one of two success
 * messages. Written output is returned as the sequence of strings written.
 */
module Cli {
  import opened Wrappers
  import opened Format
  import opened ReleaseStatus
  import opened HelmStorage
  import StatusEngine

  /** The errors `runWithConfigFactory` returns. `SetStatusFailed` is an
      error of `SetStatus`, returned unchanged. */
  datatype CliError =
    | InvalidTarget(parseError: string, validStatuses: string)
    | InvalidFrom(input: string, parseError: string, validStatuses: string)
    | ConfigurationUnavailable(cause: string)
    | SetStatusFailed(err: StatusEngine.Error)

  function Message(e: CliError): (m: string)
    ensures e.InvalidTarget? ==>
      StartsWith(m, e.parseError) && EndsWith(m, "\nValid statuses: " + e.validStatuses)
    ensures e.InvalidFrom? ==>
      StartsWith(m, "invalid --from status " + Quote(e.input) + ": " + e.parseError)
      && EndsWith(m, "\nValid statuses: " + e.validStatuses)
    ensures e.ConfigurationUnavailable? ==>
      StartsWith(m, "failed to create configuration: ") && EndsWith(m, e.cause)
    // `%w` alone keeps the text of the wrapped error.
    ensures e.SetStatusFailed? ==> m == StatusEngine.Message(e.err)
  {
    match e
    case InvalidTarget(parseError, valid) =>
      Affixes(parseError, "\nValid statuses: " + valid);
      assert parseError + ("\nValid statuses: " + valid) == parseError + "\nValid statuses: " + valid;
      parseError + "\nValid statuses: " + valid
    case InvalidFrom(input, parseError, valid) =>
      var head := "invalid --from status " + Quote(input) + ": " + parseError;
      Affixes(head, "\nValid statuses: " + valid);
      assert head + ("\nValid statuses: " + valid) == head + "\nValid statuses: " + valid;
      head + "\nValid statuses: " + valid
    case ConfigurationUnavailable(cause) =>
      Affixes("failed to create configuration: ", cause);
      "failed to create configuration: " + cause
    case SetStatusFailed(err) =>
      StatusEngine.Message(err)
  }

  /** The message for an invalid target status begins with the parser's
      `invalid status: <input>` and lists every valid status. */
  lemma InvalidTargetMessageMentions(s: string, i: int)
    requires ParseStatus(s).err.Some?
    requires 0 <= i < |ValidStatuses|
    ensures StartsWith(Message(InvalidTarget(ParseStatus(s).err.value, Join(ValidStatuses, ", "))), "invalid status: " + s)
    ensures Contains(Message(InvalidTarget(ParseStatus(s).err.value, Join(ValidStatuses, ", "))), ValidStatuses[i])
  {
    var valid := Join(ValidStatuses, ", ");
    ValidStatusesStringMentionsAll(i);
    ContainsInSuffix(ParseStatus(s).err.value + "\nValid statuses: ", valid, ValidStatuses[i]);
  }

  /** What a run returns: the text written to the output stream, and the
      error, if any. */
  datatype RunResult = RunResult(output: seq<string>, err: Option<CliError>)

  /** Every `--from` entry is a canonical status string. */
  ghost predicate AllValid(fromStatuses: seq<string>) {
    forall i :: 0 <= i < |fromStatuses| ==> ParseStatus(fromStatuses[i]).err.None?
  }

  /** Entry `i` is the first `--from` entry that does not parse. */
  ghost predicate FirstInvalidAt(fromStatuses: seq<string>, i: int) {
    && 0 <= i < |fromStatuses|
    && ParseStatus(fromStatuses[i]).err.Some?
    && forall j :: 0 <= j < i ==> ParseStatus(fromStatuses[j]).err.None?
  }

  /** The error for an invalid entry `s` of `--from`. */
  ghost function InvalidFromError(s: string): CliError
    requires ParseStatus(s).err.Some?
  {
    InvalidFrom(s, ParseStatus(s).err.value, Join(ValidStatuses, ", "))
  }

  /** The `--from` loop of `runWithConfigFactory`: parses each entry in
      order, stopping at the first invalid one. */
  method ParseFromStatuses(fromStatuses: seq<string>) returns (r: Result<seq<Status>, CliError>)
    ensures r.Success? <==> AllValid(fromStatuses)
    ensures r.Success? ==> |r.value| == |fromStatuses|
    ensures r.Success? ==> forall i :: 0 <= i < |fromStatuses| ==> ParseStatus(fromStatuses[i]) == Parsed(r.value[i], None)
    ensures r.Failure? ==>
      exists i :: FirstInvalidAt(fromStatuses, i) && r.error == InvalidFromError(fromStatuses[i])
  {
    var allowedFromStatuses: seq<Status> := [];
    var i := 0;
    while i < |fromStatuses|
      invariant 0 <= i <= |fromStatuses|
      invariant |allowedFromStatuses| == i
      invariant forall j :: 0 <= j < i ==> ParseStatus(fromStatuses[j]) == Parsed(allowedFromStatuses[j], None)
    {
      var parsed := ParseStatus(fromStatuses[i]);
      if parsed.err.Some? {
        var valid := ValidStatusesString();
        assert FirstInvalidAt(fromStatuses, i);
        return Failure(InvalidFrom(fromStatuses[i], parsed.err.value, valid));
      }
      allowedFromStatuses := allowedFromStatuses + [parsed.status];
      i := i + 1;
    }
    return Success(allowedFromStatuses);
  }

  /** The success line: `Release "<name>"`, then `revision N` for a positive
      revision and nothing otherwise, then `status set to "<status>"` and a
      newline. */
  function SuccessMessage(releaseName: string, rev: int, statusStr: string): (m: string)
    ensures StartsWith(m, "Release " + Quote(releaseName))
    ensures EndsWith(m, " status set to " + Quote(statusStr) + "\n")
    ensures rev > 0 ==>
      m == "Release " + Quote(releaseName) + " revision " + IntToString(rev) + " status set to " + Quote(statusStr) + "\n"
    ensures rev <= 0 <==> m == "Release " + Quote(releaseName) + " status set to " + Quote(statusStr) + "\n"
  {
    if rev > 0 then
      LineShape("Release ", Quote(releaseName), " revision " + IntToString(rev), " status set to ", Quote(statusStr), "\n");
      "Release " + Quote(releaseName) + (" revision " + IntToString(rev)) + " status set to " + Quote(statusStr) + "\n"
    else
      LineShape("Release ", Quote(releaseName), "", " status set to ", Quote(statusStr), "\n");
      "Release " + Quote(releaseName) + " status set to " + Quote(statusStr) + "\n"
  }

  /** The shape of a success line built from its six parts, with an optional
      middle part `c`: it starts with `a + b`, ends with `d + e + f`, and
      is the line without `c` plus `|c|` characters. */
  lemma LineShape(a: string, b: string, c: string, d: string, e: string, f: string)
    ensures var m := a + b + c + d + e + f;
      && StartsWith(m, a + b) && EndsWith(m, d + e + f)
      && |m| == |a + b + d + e + f| + |c|
      && (c == "" ==> m == a + b + d + e + f)
  {
    var m := a + b + c + d + e + f;
    assert m == (a + b) + (c + (d + e + f));
    Affixes(a + b, c + (d + e + f));
    assert m == ((a + b) + c) + (d + e + f);
    Affixes((a + b) + c, d + e + f);
  }

  /** The success line names the target status as given, and a positive
      revision as ` revision N `. */
  lemma SuccessMessageMentions(releaseName: string, rev: int, statusStr: string)
    ensures Contains(SuccessMessage(releaseName, rev, statusStr), Quote(statusStr))
    ensures rev > 0 ==> Contains(SuccessMessage(releaseName, rev, statusStr), " revision " + IntToString(rev) + " ")
  {
    var m := SuccessMessage(releaseName, rev, statusStr);
    var suffix := " status set to " + Quote(statusStr) + "\n";
    ContainsMiddle(" status set to ", Quote(statusStr), "\n");
    assert m == m[..|m| - |suffix|] + suffix;
    ContainsInSuffix(m[..|m| - |suffix|], suffix, Quote(statusStr));
    if rev > 0 {
      var head := "Release " + Quote(releaseName);
      assert m == head + (" revision " + IntToString(rev)) + suffix;
      RevisionInMessage(head, IntToString(rev), Quote(statusStr));
    }
  }

  /** The `revision N` part of the success line is surrounded by spaces. */
  lemma RevisionInMessage(head: string, rev: string, quoted: string)
    ensures Contains(head + (" revision " + rev) + (" status set to " + quoted + "\n"), " revision " + rev + " ")
  {
    var m := head + (" revision " + rev) + (" status set to " + quoted + "\n");
    assert m == head + (" revision " + rev + " ") + ("status set to " + quoted + "\n");
    ContainsMiddle(head, " revision " + rev + " ", "status set to " + quoted + "\n");
  }

  /** The classification of `SetStatus`'s result: success prints the success
      line; a precondition failure with `noFail` prints "Skipped: " and the
      message and succeeds; every other error is returned unchanged with
      nothing written. */
  function Classify(result: Option<StatusEngine.Error>, noFail: bool, releaseName: string, rev: int, statusStr: string): (r: RunResult)
    ensures r.err.None? <==> result.None? || (result.value.PreconditionFailed? && noFail)
    ensures result.None? ==> r.output == [SuccessMessage(releaseName, rev, statusStr)]
    ensures result.Some? && r.err.None? ==> r.output == ["Skipped: " + StatusEngine.Message(result.value) + "\n"]
    ensures r.err.Some? ==> r.err == Some(SetStatusFailed(result.value)) && r.output == []
  {
    match result
    case None => RunResult([SuccessMessage(releaseName, rev, statusStr)], None)
    case Some(e) =>
      if e.PreconditionFailed? && noFail then RunResult(["Skipped: " + StatusEngine.Message(e) + "\n"], None)
      else RunResult([], Some(SetStatusFailed(e)))
  }

  /** Given the same failed precondition, `noFail` decides between a skip and
      a hard error; both carry the same message, and that message names the
      current status and every allowed status. */
  lemma SkipOrFail(current: Status, allowed: seq<Status>, releaseName: string, rev: int, statusStr: string)
    ensures var e := StatusEngine.PreconditionFailed(current, allowed);
      var skipped := Classify(Some(e), true, releaseName, rev, statusStr);
      var failed := Classify(Some(e), false, releaseName, rev, statusStr);
      && skipped == RunResult(["Skipped: " + Message(SetStatusFailed(e)) + "\n"], None)
      && failed == RunResult([], Some(SetStatusFailed(e)))
      && Contains(Message(SetStatusFailed(e)), ToString(current))
      && forall i :: 0 <= i < |allowed| ==> Contains(Message(SetStatusFailed(e)), ToString(allowed[i]))
  {
    StatusEngine.PreconditionMessageMentions(current, allowed);
  }

  /** A skipped run wrote nothing: the precondition failure that `noFail`
      turns into success left every record as it was. */
  lemma SkipLeavesStoreUnchanged(
    db: map<Key, Release>, updateFailure: Option<string>, releaseName: string, target: Status,
    rev: int, allowed: seq<Status>, now: Time, statusStr: string)
    requires WellKeyed(db)
    requires var o := StatusEngine.Transition(db, updateFailure, releaseName, target, rev, allowed, now);
      o.err.Some? && o.err.value.PreconditionFailed?
    ensures var o := StatusEngine.Transition(db, updateFailure, releaseName, target, rev, allowed, now);
      && Classify(o.err, true, releaseName, rev, statusStr).err.None?
      && Classify(o.err, true, releaseName, rev, statusStr).output[0][..|"Skipped: "|] == "Skipped: "
      && o.releases == db
  {
  }

  /** The store a factory yields, as a set of objects to modify. */
  function Yielded(configFactory: () -> Result<Store, string>): set<Store> {
    if configFactory().Success? then {configFactory().value} else {}
  }

  /** `runWithConfigFactory`. `args[0]` and `args[1]` are `releaseName` and
      `statusStr`; `now` stands for the clock `SetStatus` reads. */
  method RunWithConfigFactory(
    releaseName: string, statusStr: string, rev: int, fromStatuses: seq<string>, noFail: bool,
    configFactory: () -> Result<Store, string>, now: Time) returns (r: RunResult)
    requires configFactory().Success? ==> allocated(configFactory().value) && configFactory().value.Valid()
    modifies Yielded(configFactory)
    // An invalid target status is reported first, with the valid list.
    ensures ParseStatus(statusStr).err.Some? ==>
      r == RunResult([], Some(InvalidTarget(ParseStatus(statusStr).err.value, Join(ValidStatuses, ", "))))
    // Then the first invalid --from entry, in list order.
    ensures ParseStatus(statusStr).err.None? && !AllValid(fromStatuses) ==>
      r.output == [] && exists i :: FirstInvalidAt(fromStatuses, i) && r.err == Some(InvalidFromError(fromStatuses[i]))
    // Then a factory failure.
    ensures ParseStatus(statusStr).err.None? && AllValid(fromStatuses) && configFactory().Failure? ==>
      r == RunResult([], Some(ConfigurationUnavailable(configFactory().error)))
    // No store is touched unless validation passed and the factory succeeded.
    ensures (ParseStatus(statusStr).err.Some? || !AllValid(fromStatuses)) && configFactory().Success? ==>
      unchanged(configFactory().value)
    // Otherwise SetStatus runs with the parsed list, and its result is classified.
    ensures ParseStatus(statusStr).err.None? && AllValid(fromStatuses) && configFactory().Success? ==>
      var store := configFactory().value;
      var allowed := seq(|fromStatuses|, i requires 0 <= i < |fromStatuses| => ParseStatus(fromStatuses[i]).status);
      var o := StatusEngine.Transition(old(store.releases), store.updateFailure, releaseName,
                                       ParseStatus(statusStr).status, rev, allowed, now);
      store.Valid() && store.releases == o.releases && store.updateFailure == old(store.updateFailure) &&
      r == Classify(o.err, noFail, releaseName, rev, statusStr)
  {
    var parsedTarget := ParseStatus(statusStr);
    if parsedTarget.err.Some? {
      var valid := ValidStatusesString();
      return RunResult([], Some(InvalidTarget(parsedTarget.err.value, valid)));
    }
    var targetStatus := parsedTarget.status;

    var allowedFromStatuses := ParseFromStatuses(fromStatuses);
    if allowedFromStatuses.Failure? {
      return RunResult([], Some(allowedFromStatuses.error));
    }
    ghost var allowed := seq(|fromStatuses|, i requires 0 <= i < |fromStatuses| => ParseStatus(fromStatuses[i]).status);
    assert allowedFromStatuses.value == allowed;

    var cfg := configFactory();
    if cfg.Failure? {
      return RunResult([], Some(ConfigurationUnavailable(cfg.error)));
    }
    var store := cfg.value;

    var err := StatusEngine.SetStatus(store, releaseName, targetStatus, rev, allowedFromStatuses.value, now);
    r := Classify(err, noFail, releaseName, rev, statusStr);
  }
}
