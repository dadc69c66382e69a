/** The stored execution state of a schedule, and its identifier (crates/patchhive-product-core/src/scheduling.rs). */
module ScheduleEvidence {
  import opened Wrappers
  import opened Text
  import opened Scheduling

  function ObservedAt(state: ExecutionState): Option<Time> {
    match state
    case NeverRun => None
    case Claimed(at) => Some(at)
    case Completed(at, _, _) => Some(at)
    case Failed(at, _, _) => Some(at)
    case Cancelled(at, _, _) => Some(at)
    case Unknown(_, at, _, _) => at
  }

  /** Whatever a row holds, the decoded state reports the stored time. */
  lemma DecodedKeepsTime(row: Row)
    ensures ObservedAt(DecodedRow(row)) == row.lastRunAt
  {
    hide Trim, Lower;
  }

  /** What a recorded result should read back as. */
  function Expected(result: ExecutionResult, now: Time): ExecutionState {
    match result
    case CompletedResult(runId, outcome) => Completed(now, runId, outcome)
    case FailedResult(runId, error) => Failed(now, runId, error)
    case CancelledResult(runId, reason) => Cancelled(now, runId, reason)
  }

  predicate ReservedWord(outcome: string) {
    Lower(Trim(outcome)) in {"idle", "never_run", "claimed", "running", "cancelled", "canceled"}
  }

  lemma LiteralIsPlain(word: string)
    requires word != "" && forall i :: 0 <= i < |word| ==> 'a' <= word[i] <= 'z'
    ensures Lower(Trim(word)) == word
  {
    StripFixed(word, IsWhitespace);
  }

  lemma Literals()
    ensures Lower(Trim("idle")) == "idle" && Lower(Trim("claimed")) == "claimed"
    ensures Lower(Trim("failed")) == "failed" && Lower(Trim("cancelled")) == "cancelled"
  {
    hide Trim, Lower;
    LiteralIsPlain("idle");
    LiteralIsPlain("claimed");
    LiteralIsPlain("failed");
    LiteralIsPlain("cancelled");
  }

  /** An accepted result decodes back exactly, except a completed outcome that is one of six reserved words. */
  lemma RecordedDecodesExactlyWhen(row: Row, result: ExecutionResult, now: Time)
    requires AcceptedResult(result)
    ensures DecodedRow(RecordedRow(row, result, now)) == Expected(result, now)
      <==> !(result.CompletedResult? && ReservedWord(result.outcome))
  {
    Literals();
    hide Trim;
  }

  predicate Undecodable(result: ExecutionResult) {
    && result.CompletedResult?
    && var word := Lower(Trim(result.outcome));
       word in {"idle", "never_run"} || (word in {"claimed", "running"} && result.runId.Some?)
  }

  /** It decodes to `Unknown` exactly when the outcome claims an idle state, or a claimed one with a run. */
  lemma RecordedUnknownExactlyWhen(row: Row, result: ExecutionResult, now: Time)
    requires AcceptedResult(result)
    ensures DecodedRow(RecordedRow(row, result, now)).Unknown? <==> Undecodable(result)
  {
    Literals();
    hide Trim;
  }

  /** For example: a run that completed with the outcome "idle" is stored as something nobody can decode. */
  lemma IdleOutcomeIsUnknown(row: Row, runId: Option<string>, now: Time)
    ensures AcceptedResult(CompletedResult(runId, "idle"))
    ensures DecodedRow(RecordedRow(row, CompletedResult(runId, "idle"), now)).Unknown?
  {
    Literals();
    hide Lower;
    assert Trim("idle") != "" by {
      StripFixed("idle", IsWhitespace);
    }
    hide Trim;
  }

  // ---------------------------------------------------------------------------------------
  // Identifiers.

  function ScheduleId(key: Key): string {
    key.product + ":" + key.action + ":" + key.name
  }

  lemma IdentityHasNoColon(value: string)
    requires ValidIdentity(value)
    ensures ':' !in value
  {
    hide Trim;
  }

  lemma SplitOnColon(a: string, rest: string, b: string, other: string)
    requires ':' !in a && ':' !in b && a + [':'] + rest == b + [':'] + other
    ensures a == b && rest == other
  {
    FindAfter(a, ':', rest);
    FindAfter(b, ':', other);
    var s := a + [':'] + rest;
    assert s[..|a|] == a && s[..|b|] == b && s[|a| + 1..] == rest && s[|b| + 1..] == other;
  }

  /**
    Updating by identifier is updating by key: identifiers of saved schedules never collide, whatever
    their names hold.
   */
  lemma ScheduleIdInjective(a: SaveInput, b: SaveInput)
    requires SaveKey(a).Some? && SaveKey(b).Some?
    requires ScheduleId(SaveKey(a).value) == ScheduleId(SaveKey(b).value)
    ensures SaveKey(a) == SaveKey(b)
  {
    hide ValidatedName, ValidIdentity;
    var x, y := SaveKey(a).value, SaveKey(b).value;
    IdentityHasNoColon(x.product);
    IdentityHasNoColon(x.action);
    IdentityHasNoColon(y.product);
    IdentityHasNoColon(y.action);
    assert ScheduleId(x) == x.product + [':'] + (x.action + ":" + x.name);
    assert ScheduleId(y) == y.product + [':'] + (y.action + ":" + y.name);
    SplitOnColon(x.product, x.action + ":" + x.name, y.product, y.action + ":" + y.name);
    assert x.action + ":" + x.name == x.action + [':'] + x.name && y.action + ":" + y.name == y.action + [':'] + y.name;
    SplitOnColon(x.action, x.name, y.action, y.name);
  }
}
