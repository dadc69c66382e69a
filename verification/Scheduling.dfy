/** The product schedule store (crates/patchhive-product-core/src/scheduling.rs). */
module Scheduling {
  import opened Wrappers
  import opened Numbers
  import opened Text
  import opened Ordering

  /** Seconds. */
  type Time = nat

  const HOUR := 3600
  const MAX_CADENCE_HOURS := 8760
  const MAX_SCHEDULE_NAME_CHARS := 80
  const DEFAULT_SCHEDULE_APPROVAL_POLICY := "read_only_auto"

  datatype Key = Key(product: string, action: string, name: string)

  datatype TargetSelectionMode = Direct | Discovery

  datatype Row = Row(
    payload: string, mode: TargetSelectionMode, cadenceHours: nat, enabled: bool, approvalPolicy: string,
    createdAt: Time, updatedAt: Time, nextRunAt: Time,
    lastRunAt: Option<Time>, lastRunId: Option<string>, lastStatus: string, lastError: Option<string>)

  type Table = map<Key, Row>

  function Clamp(hours: nat): (r: nat)
    ensures 1 <= r <= MAX_CADENCE_HOURS
  {
    if hours < 1 then 1 else if hours > MAX_CADENCE_HOURS then MAX_CADENCE_HOURS else hours
  }

  /** `next_run_at`, given its own reading of the clock. */
  function NextRunAt(cadenceHours: nat, clock: Time): Time {
    clock + Clamp(cadenceHours) * HOUR
  }

  predicate IsControl(c: char) {
    c <= '\U{1F}' || '\U{7F}' <= c <= '\U{9F}'
  }

  predicate IsIdentityChar(c: char) {
    'a' <= c <= 'z' || 'A' <= c <= 'Z' || '0' <= c <= '9' || c == '-' || c == '_'
  }

  predicate ValidIdentity(value: string) {
    Trim(value) != "" && forall i :: 0 <= i < |value| ==> IsIdentityChar(value[i])
  }

  function ValidatedName(name: string): Option<string> {
    var trimmed := Trim(name);
    if trimmed == "" || |trimmed| > MAX_SCHEDULE_NAME_CHARS || exists i :: 0 <= i < |trimmed| && IsControl(trimmed[i])
    then None else Some(trimmed)
  }

  datatype SaveInput = SaveInput(
    name: string, product: string, action: string, payload: string, mode: TargetSelectionMode,
    cadenceHours: nat, enabled: bool, approvalPolicy: string)

  /** The row a valid input is about. */
  function SaveKey(input: SaveInput): Option<Key> {
    if ValidIdentity(input.product) && ValidIdentity(input.action) && ValidatedName(input.name).Some?
    then Some(Key(input.product, input.action, ValidatedName(input.name).value)) else None
  }

  function Lookup(table: Table, key: Key): Option<Row> {
    if key in table then Some(table[key]) else None
  }

  /** A schedule keeps its place unless its cadence or its switch changes. */
  predicate KeepsPlace(existing: Option<Row>, input: SaveInput) {
    existing.Some? && existing.value.enabled == input.enabled
      && existing.value.cadenceHours == Clamp(input.cadenceHours)
  }

  /** The next time a save writes, given what its read found. */
  function NextTime(existing: Option<Row>, input: SaveInput, clock: Time): Time {
    if KeepsPlace(existing, input) then existing.value.nextRunAt else NextRunAt(Clamp(input.cadenceHours), clock)
  }

  /** The write of a save, given what its read found. */
  function SavedFrom(table: Table, existing: Option<Row>, key: Key, input: SaveInput, now: Time, clock: Time): Table {
    var cadence := Clamp(input.cadenceHours);
    var trimmed := Trim(input.approvalPolicy);
    var policy := if trimmed == "" then DEFAULT_SCHEDULE_APPROVAL_POLICY else trimmed;
    var next := NextTime(existing, input, clock);
    if key in table then
      table[key := table[key].(
        payload := input.payload, mode := input.mode, cadenceHours := cadence, enabled := input.enabled,
        approvalPolicy := policy, updatedAt := now, nextRunAt := next)]
    else
      table[key := Row(
        input.payload, input.mode, cadence, input.enabled, policy,
        if existing.Some? then existing.value.createdAt else now, now, next, None, None, "idle", None)]
  }

  function Saved(table: Table, input: SaveInput, now: Time, clock: Time): Table {
    match SaveKey(input)
    case None => table
    case Some(key) => SavedFrom(table, Lookup(table, key), key, input, now, clock)
  }

  // ---------------------------------------------------------------------------------------
  // Claims.

  predicate IsDue(table: Table, product: string, action: string, now: Time, key: Key) {
    && key in table && key.product == product && key.action == action
    && table[key].enabled && table[key].nextRunAt <= now
  }

  function Due(table: Table, product: string, action: string, now: Time): set<Key> {
    set key | key in table && IsDue(table, product, action, now, key)
  }

  /** `ORDER BY next_run_at, name`. */
  predicate Before(table: Table, a: Key, b: Key) {
    && a in table && b in table
    && (table[a].nextRunAt < table[b].nextRunAt || (table[a].nextRunAt == table[b].nextRunAt && Less(a.name, b.name)))
  }

  ghost predicate OneAction(table: Table, keys: set<Key>) {
    && keys <= table.Keys
    && forall a, b :: a in keys && b in keys ==> a.product == b.product && a.action == b.action
  }

  ghost predicate IsFirst(table: Table, keys: set<Key>, first: Key) {
    first in keys && forall other :: other in keys && other != first ==> Before(table, first, other)
  }

  lemma BeforeTotal(table: Table, a: Key, b: Key)
    requires a in table && b in table && a != b && a.product == b.product && a.action == b.action
    ensures Before(table, a, b) || Before(table, b, a)
  {
    LessTotal(a.name, b.name);
  }

  lemma BeforeTransitive(table: Table, a: Key, b: Key, c: Key)
    requires Before(table, a, b) && Before(table, b, c)
    ensures Before(table, a, c)
  {
    if table[a].nextRunAt == table[c].nextRunAt {
      LessTransitive(a.name, b.name, c.name);
    }
  }

  lemma {:induction false} FirstExists(table: Table, keys: set<Key>) returns (first: Key)
    requires OneAction(table, keys) && keys != {}
    ensures IsFirst(table, keys, first)
    decreases |keys|
  {
    hide Before;
    var x :| x in keys;
    var rest := keys - {x};
    assert forall k :: k in keys ==> k == x || k in rest;
    if rest == {} {
      first := x;
    } else {
      var m := FirstExists(table, rest);
      BeforeTotal(table, x, m);
      first := if Before(table, x, m) then x else m;
      forall other | other in keys && other != first
        ensures Before(table, first, other)
      {
        if first == x && other != m {
          BeforeTransitive(table, x, m, other);
        }
      }
    }
  }

  lemma FirstIsThere(table: Table, keys: set<Key>)
    requires OneAction(table, keys) && keys != {}
    ensures exists first :: IsFirst(table, keys, first)
  {
    var first := FirstExists(table, keys);
  }

  lemma FirstIsUnique(table: Table, keys: set<Key>, a: Key, b: Key)
    requires IsFirst(table, keys, a) && IsFirst(table, keys, b)
    ensures a == b
  {
    if a != b && table[a].nextRunAt == table[b].nextRunAt {
      LessAsymmetric(a.name, b.name);
    }
  }

  ghost function FirstOf(table: Table, keys: set<Key>): (first: Key)
    requires OneAction(table, keys) && keys != {}
    ensures IsFirst(table, keys, first)
  {
    FirstIsThere(table, keys);
    var first :| IsFirst(table, keys, first);
    first
  }

  /** The keys in query order. */
  ghost function InOrder(table: Table, keys: set<Key>): (r: seq<Key>)
    requires OneAction(table, keys)
    ensures |r| == |keys|
    decreases |keys|
  {
    if keys == {} then []
    else
      var first := FirstOf(table, keys);
      [first] + InOrder(table, keys - {first})
  }

  lemma {:induction false} InOrderMembers(table: Table, keys: set<Key>, key: Key)
    requires OneAction(table, keys)
    ensures key in InOrder(table, keys) <==> key in keys
    decreases |keys|
  {
    hide Before;
    if keys == {} {
    } else {
      var first := FirstOf(table, keys);
      InOrderMembers(table, keys - {first}, key);
    }
  }

  lemma InOrderFirst(table: Table, keys: set<Key>, first: Key)
    requires OneAction(table, keys) && IsFirst(table, keys, first)
    ensures InOrder(table, keys) == [first] + InOrder(table, keys - {first})
  {
    FirstIsUnique(table, keys, first, FirstOf(table, keys));
  }

  ghost predicate Ordered(table: Table, keys: seq<Key>) {
    forall i, j :: 0 <= i < j < |keys| ==> Before(table, keys[i], keys[j]) && keys[i] != keys[j]
  }

  lemma PrependOrdered(table: Table, first: seq<Key>, rest: seq<Key>)
    requires |first| <= 1 && Ordered(table, rest)
    requires forall i, j :: 0 <= i < |first| && 0 <= j < |rest| ==>
      Before(table, first[i], rest[j]) && first[i] != rest[j]
    ensures Ordered(table, first + rest)
  {
    hide Before;
  }

  /** The query order is an order: each key comes before all later ones, so none is listed twice. */
  lemma {:induction false} InOrderSorted(table: Table, keys: set<Key>)
    requires OneAction(table, keys)
    ensures Ordered(table, InOrder(table, keys))
    decreases |keys|
  {
    assert Ordered(table, []);
    hide Before, Ordered;
    if keys == {} {
    } else {
      var first := FirstOf(table, keys);
      var rest := InOrder(table, keys - {first});
      InOrderSorted(table, keys - {first});
      forall j | 0 <= j < |rest|
        ensures Before(table, first, rest[j]) && first != rest[j]
      {
        InOrderMembers(table, keys - {first}, rest[j]);
      }
      PrependOrdered(table, [first], rest);
    }
  }

  lemma DueIsOneAction(table: Table, product: string, action: string, now: Time)
    ensures OneAction(table, Due(table, product, action, now))
  {}

  /** The claimed schedules: the first due ones in query order. */
  ghost function Selected(table: Table, product: string, action: string, now: Time, limit: nat): seq<Key> {
    DueIsOneAction(table, product, action, now);
    var due := InOrder(table, Due(table, product, action, now));
    due[..Min(Max(limit, 1), |due|)]
  }

  function ClaimedRow(row: Row, claimedAt: Time, clock: Time): Row {
    row.(nextRunAt := NextRunAt(row.cadenceHours, clock), updatedAt := claimedAt, lastRunAt := Some(claimedAt),
         lastRunId := None, lastStatus := "claimed", lastError := None)
  }

  /** A clock that stands still. */
  ghost function At(now: Time): nat -> Time { (i: nat) => now }

  /** The `i`-th claimed row takes two readings of the clock. */
  function ClaimedTable(table: Table, keys: seq<Key>, ticks: nat -> Time): Table {
    if keys == [] then table
    else
      var n := |keys| - 1;
      var before := ClaimedTable(table, keys[..n], ticks);
      if keys[n] in before && before[keys[n]].enabled
      then before[keys[n] := ClaimedRow(before[keys[n]], ticks(2 * n), ticks(2 * n + 1))]
      else before
  }

  lemma {:induction false} OthersUnclaimed(table: Table, keys: seq<Key>, ticks: nat -> Time, k: Key)
    requires k !in keys
    ensures Lookup(ClaimedTable(table, keys, ticks), k) == Lookup(table, k)
  {
    hide ClaimedRow;
    if keys == [] {
    } else {
      var n := |keys| - 1;
      assert keys[n] in keys;
      OthersUnclaimed(table, keys[..n], ticks, k);
    }
  }

  /** What the `i`-th selected row becomes. */
  function ClaimedAt(table: Table, keys: seq<Key>, ticks: nat -> Time, i: nat): Option<Row> {
    if i < |keys| && keys[i] in table then Some(ClaimedRow(table[keys[i]], ticks(2 * i), ticks(2 * i + 1))) else None
  }

  ghost predicate Claimable(table: Table, keys: seq<Key>) {
    && (forall i, j :: 0 <= i < j < |keys| ==> keys[i] != keys[j])
    && forall i :: 0 <= i < |keys| ==> keys[i] in table && table[keys[i]].enabled
  }

  /** Claiming distinct enabled rows rewrites each of them once. */
  lemma {:induction false} NthClaimed(table: Table, keys: seq<Key>, ticks: nat -> Time, i: nat)
    requires Claimable(table, keys) && i < |keys|
    ensures Lookup(ClaimedTable(table, keys, ticks), keys[i]) == ClaimedAt(table, keys, ticks, i)
    ensures ClaimedAt(table, keys, ticks, i).Some?
  {
    hide ClaimedRow;
    var n := |keys| - 1;
    if i == n {
      OthersUnclaimed(table, keys[..n], ticks, keys[n]);
    } else {
      NthClaimed(table, keys[..n], ticks, i);
    }
  }

  lemma FirstIsMember(table: Table, keys: set<Key>, first: Key)
    requires IsFirst(table, keys, first)
    ensures first in keys
  {}

  lemma NothingClaimed(table: Table, keys: seq<Key>, ticks: nat -> Time)
    ensures ClaimedTable(table, keys[..0], ticks) == table
  {}

  lemma PrefixOfOrder(table: Table, ordered: seq<Key>, n: nat)
    requires Ordered(table, ordered) && n <= |ordered|
    ensures Ordered(table, ordered[..n])
    ensures forall i :: 0 <= i < n ==> ordered[..n][i] in ordered
    ensures forall k, i :: 0 <= i < n && k in ordered && k !in ordered[..n] ==> Before(table, ordered[..n][i], k)
  {
    hide Before;
    var keys := ordered[..n];
    assert forall i :: 0 <= i < n ==> keys[i] == ordered[i];
    assert forall i :: 0 <= i < n ==> keys[i] in keys;
  }

  /** What is selected is due, distinct, and comes before every due schedule left out. */
  lemma SelectedAreDue(table: Table, product: string, action: string, now: Time, limit: nat)
    ensures var keys := Selected(table, product, action, now, limit);
      && |keys| == Min(Max(limit, 1), |Due(table, product, action, now)|)
      && (forall i :: 0 <= i < |keys| ==> IsDue(table, product, action, now, keys[i]))
      && Ordered(table, keys)
      && forall k, i :: 0 <= i < |keys| && k in Due(table, product, action, now) && k !in keys ==>
        Before(table, keys[i], k)
  {
    var due := Due(table, product, action, now);
    DueIsOneAction(table, product, action, now);
    var ordered := InOrder(table, due);
    InOrderSorted(table, due);
    forall k
      ensures k in ordered <==> k in due
    {
      InOrderMembers(table, due, k);
    }
    hide Before, Ordered, InOrder;
    PrefixOfOrder(table, ordered, Min(Max(limit, 1), |ordered|));
  }

  lemma SelectedClaimable(table: Table, product: string, action: string, now: Time, limit: nat)
    ensures Claimable(table, Selected(table, product, action, now, limit))
  {
    hide Before, Selected;
    SelectedAreDue(table, product, action, now, limit);
  }

  /** The next selected row is still as the query saw it. */
  lemma NextClaim(table: Table, keys: seq<Key>, ticks: nat -> Time, i: nat)
    requires Claimable(table, keys) && i < |keys|
    ensures var before := ClaimedTable(table, keys[..i], ticks);
      && keys[i] in before
      && ClaimedAt(table, keys, ticks, i) == Some(ClaimedRow(before[keys[i]], ticks(2 * i), ticks(2 * i + 1)))
      && ClaimedTable(table, keys[..i + 1], ticks)
        == before[keys[i] := ClaimedRow(before[keys[i]], ticks(2 * i), ticks(2 * i + 1))]
  {
    hide ClaimedRow;
    OthersUnclaimed(table, keys[..i], ticks, keys[i]);
    assert keys[..i + 1][..i] == keys[..i];
  }

  // ---------------------------------------------------------------------------------------
  // Results.

  datatype ExecutionResult =
    | CompletedResult(runId: Option<string>, outcome: string)
    | FailedResult(runId: Option<string>, error: string)
    | CancelledResult(runId: Option<string>, reason: Option<string>)

  predicate AcceptedResult(result: ExecutionResult) {
    match result
    case CompletedResult(_, outcome) => Trim(outcome) != ""
    case FailedResult(_, error) => Trim(error) != ""
    case CancelledResult(_, _) => true
  }

  function RecordedRow(row: Row, result: ExecutionResult, now: Time): Row {
    var (status, detail) := match result
      case CompletedResult(_, outcome) => (outcome, None)
      case FailedResult(_, error) => ("failed", Some(error))
      case CancelledResult(_, reason) => ("cancelled", reason);
    row.(lastRunAt := Some(now), lastRunId := result.runId, lastStatus := status, lastError := detail, updatedAt := now)
  }

  function Recorded(table: Table, key: Key, result: ExecutionResult, now: Time): Table {
    if AcceptedResult(result) && key in table then table[key := RecordedRow(table[key], result, now)] else table
  }

  datatype ExecutionState =
    | NeverRun
    | Claimed(claimedAt: Time)
    | Completed(completedAt: Time, runId: Option<string>, outcome: string)
    | Failed(failedAt: Time, runId: Option<string>, error: string)
    | Cancelled(cancelledAt: Time, runId: Option<string>, reason: Option<string>)
    | Unknown(rawStatus: string, observedAt: Option<Time>, runId: Option<string>, detail: Option<string>)

  /** `decode_last_execution`. */
  function Decoded(
    observedAt: Option<Time>, runId: Option<string>, rawStatus: string, detail: Option<string>): ExecutionState {
    var status := Lower(Trim(rawStatus));
    if status in {"idle", "never_run"} && observedAt.None? && runId.None? && detail.None? then NeverRun
    else if status in {"claimed", "running"} && observedAt.Some? && runId.None? && detail.None? then
      Claimed(observedAt.value)
    else if status in {"error", "failed"} && observedAt.Some? && detail.Some? && Trim(detail.value) != "" then
      Failed(observedAt.value, runId, detail.value)
    else if status in {"cancelled", "canceled"} && observedAt.Some? then Cancelled(observedAt.value, runId, detail)
    else if observedAt.Some? && detail.None? && status !in {"", "idle", "never_run", "claimed", "running"} then
      Completed(observedAt.value, runId, rawStatus)
    else Unknown(rawStatus, observedAt, runId, detail)
  }

  function DecodedRow(row: Row): ExecutionState {
    Decoded(row.lastRunAt, row.lastRunId, row.lastStatus, row.lastError)
  }

  // ---------------------------------------------------------------------------------------
  // The store.

  class ScheduleStore {
    var rows: Table

    constructor ()
      ensures rows == map[]
    {
      rows := map[];
    }

    method Save(input: SaveInput, now: Time, clock: Time) returns (r: Result<Row, string>)
      modifies this
      ensures rows == Saved(old(rows), input, now, clock)
      ensures r.Ok? <==> SaveKey(input).Some?
      ensures r.Ok? ==> SaveKey(input).value in rows && r.value == rows[SaveKey(input).value]
    {
      hide ValidatedName, ValidIdentity, Trim;
      if !ValidIdentity(input.product) || !ValidIdentity(input.action) {
        return Err("schedule identifier is invalid");
      }
      var name := ValidatedName(input.name);
      if name.None? {
        return Err("schedule name is invalid");
      }
      var key := Key(input.product, input.action, name.value);
      var existing := Lookup(rows, key);
      rows := SavedFrom(rows, existing, key, input, now, clock);
      return Ok(rows[key]);
    }

    method Delete(key: Key) returns (removed: bool)
      modifies this
      ensures rows == old(rows) - {key}
      ensures removed <==> key in old(rows)
    {
      removed := key in rows;
      rows := rows - {key};
    }

    method RecordResult(key: Key, result: ExecutionResult, now: Time) returns (r: Result<bool, string>)
      modifies this
      ensures rows == Recorded(old(rows), key, result, now)
      ensures r == if AcceptedResult(result) then Ok(key in old(rows))
        else Err("an execution needs an outcome or an error")
    {
      hide Trim;
      if !AcceptedResult(result) {
        return Err("an execution needs an outcome or an error");
      }
      if key !in rows {
        return Ok(false);
      }
      rows := rows[key := RecordedRow(rows[key], result, now)];
      return Ok(true);
    }

    method PickFirst(keys: set<Key>) returns (first: Key)
      requires OneAction(rows, keys) && keys != {}
      ensures IsFirst(rows, keys, first)
    {
      FirstIsThere(rows, keys);
      hide Before, OneAction;
      first :| first in keys && forall other :: other in keys && other != first ==> Before(rows, first, other);
    }

    /** The query: due rows in order, up to the limit. */
    method SelectDue(product: string, action: string, limit: nat, now: Time) returns (keys: seq<Key>)
      ensures keys == Selected(rows, product, action, now, limit)
    {
      var due := Due(rows, product, action, now);
      DueIsOneAction(rows, product, action, now);
      keys := [];
      hide Before, Due, IsDue, InOrder, IsFirst;
      while |keys| < Max(limit, 1) && due != {}
        invariant OneAction(rows, due)
        invariant InOrder(rows, Due(rows, product, action, now)) == keys + InOrder(rows, due)
        invariant |keys| <= Max(limit, 1)
        decreases due
      {
        var first := PickFirst(due);
        InOrderFirst(rows, due, first);
        FirstIsMember(rows, due, first);
        keys, due := keys + [first], due - {first};
      }
    }

    /** One transaction: select, then advance each selected schedule. */
    method ClaimDue(product: string, action: string, limit: nat, now: Time, ticks: nat -> Time)
      returns (claimed: seq<(Key, Row)>)
      modifies this
      ensures var keys := Selected(old(rows), product, action, now, limit);
        && rows == ClaimedTable(old(rows), keys, ticks)
        && |claimed| == |keys|
        && forall i :: 0 <= i < |keys| ==> claimed[i].0 == keys[i] && Lookup(rows, keys[i]) == Some(claimed[i].1)
    {
      var keys := SelectDue(product, action, limit, now);
      claimed := [];
      SelectedClaimable(rows, product, action, now, limit);
      NothingClaimed(rows, keys, ticks);
      hide *;
      for i := 0 to |keys|
        invariant rows == ClaimedTable(old(rows), keys[..i], ticks)
        invariant |claimed| == i
        invariant forall j :: 0 <= j < i ==> claimed[j].0 == keys[j]
        invariant forall j :: 0 <= j < i ==> Some(claimed[j].1) == ClaimedAt(old(rows), keys, ticks, j)
      {
        NextClaim(old(rows), keys, ticks, i);
        var row := ClaimedRow(rows[keys[i]], ticks(2 * i), ticks(2 * i + 1));
        rows := rows[keys[i] := row];
        claimed := claimed + [(keys[i], row)];
      }
      assert keys[..|keys|] == keys;
      forall i | 0 <= i < |keys|
        ensures Lookup(rows, keys[i]) == Some(claimed[i].1)
      {
        NthClaimed(old(rows), keys, ticks, i);
      }
    }
  }
}
