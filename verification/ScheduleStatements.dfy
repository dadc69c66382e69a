/**
  What the statements of the schedule store write and select, column by column
  (crates/patchhive-product-core/src/scheduling.rs).
 */
module ScheduleStatements {
  import opened Wrappers
  import opened Numbers
  import opened Text
  import opened Ordering
  import opened Scheduling
  import opened ScheduleEvidence
  import opened ScheduleRuns

  /** A cadence is kept between one hour and a year. */
  function Hours(hours: nat): nat { Min(Max(hours, 1), 8760) }

  lemma ClampIsHours(hours: nat)
    ensures Clamp(hours) == Hours(hours)
  {}

  /** The settings of a schedule, and when it was created. */
  function Settings(row: Row): (string, TargetSelectionMode, nat, bool, string, Time) {
    (row.payload, row.mode, row.cadenceHours, row.enabled, row.approvalPolicy, row.createdAt)
  }

  // ---------------------------------------------------------------------------------------
  // Saving.

  lemma AllOf(value: string)
    ensures (forall i :: 0 <= i < |value| ==> IsIdentityChar(value[i]))
      <==> forall c :: c in value ==>
             'a' <= c <= 'z' || 'A' <= c <= 'Z' || '0' <= c <= '9' || c == '-' || c == '_'
  {
    assert forall i :: 0 <= i < |value| ==> value[i] in value;
    if forall i :: 0 <= i < |value| ==> IsIdentityChar(value[i]) {
      forall c | c in value
        ensures IsIdentityChar(c)
      {
        var i :| 0 <= i < |value| && value[i] == c;
      }
    }
  }

  /** A save is accepted exactly for names like these, and is about the trimmed name. */
  lemma SaveAcceptedExactlyWhen(input: SaveInput, key: Key)
    ensures SaveKey(input) == Some(key) <==>
      && key == Key(input.product, input.action, Trim(input.name))
      && Trim(input.product) != "" && Trim(input.action) != ""
      && (forall c :: c in input.product || c in input.action ==>
            'a' <= c <= 'z' || 'A' <= c <= 'Z' || '0' <= c <= '9' || c == '-' || c == '_')
      && 1 <= |Trim(input.name)| <= 80
      && forall c :: c in Trim(input.name) ==> c >= ' ' && !('\U{7F}' <= c <= '\U{9F}')
  {
    hide Trim;
    AllOf(input.product);
    AllOf(input.action);
    var name := Trim(input.name);
    assert forall i :: 0 <= i < |name| ==> name[i] in name;
    hide IsIdentityChar;
  }

  /** A save moves the next time exactly when the switch or the cadence differs,
    to a cadence after its clock reading. */
  lemma NextTimeExactly(table: Table, input: SaveInput, now: Time, clock: Time, key: Key)
    requires SaveKey(input) == Some(key)
    ensures var after := Saved(table, input, now, clock);
      && key in after && after[key].cadenceHours == Hours(input.cadenceHours)
      && after[key].nextRunAt ==
           if key in table && table[key].enabled == input.enabled
             && table[key].cadenceHours == Hours(input.cadenceHours)
           then table[key].nextRunAt else clock + 3600 * Hours(input.cadenceHours)
  {
    ClampIsHours(input.cadenceHours);
    ClampIsHours(Clamp(input.cadenceHours));
    hide SaveKey, Trim, Clamp;
  }

  /** A row that was deleted after the save had read it comes back with its creation time. */
  lemma RecreatedRow(table: Table, existing: Row, key: Key, input: SaveInput, now: Time, clock: Time)
    requires key !in table
    ensures var after := SavedFrom(table, Some(existing), key, input, now, clock);
      key in after && after[key].createdAt == existing.createdAt && DecodedRow(after[key]) == NeverRun
  {
    Literals();
    hide Trim, NextTime;
  }

  // ---------------------------------------------------------------------------------------
  // Claiming.

  /** A schedule is due exactly when it is stored for this action, enabled, and its time has come. */
  lemma DueExactlyWhen(table: Table, product: string, action: string, now: Time, key: Key)
    ensures key in Due(table, product, action, now) <==>
      && key in table && key.product == product && key.action == action
      && table[key].enabled && table[key].nextRunAt <= now
  {}

  predicate Earlier(table: Table, a: Key, b: Key) {
    && a in table && b in table
    && (table[a].nextRunAt < table[b].nextRunAt || (table[a].nextRunAt == table[b].nextRunAt && Less(a.name, b.name)))
  }

  /** The selected schedules come in order of time and then name, each before every due one left out. */
  lemma SelectedInOrder(table: Table, product: string, action: string, now: Time, limit: nat)
    ensures var keys := Selected(table, product, action, now, limit);
      && (forall i :: 0 <= i < |keys| ==> keys[i] in Due(table, product, action, now))
      && (forall i, j :: 0 <= i < j < |keys| ==> Earlier(table, keys[i], keys[j]))
      && forall i, k :: 0 <= i < |keys| && k in Due(table, product, action, now) && k !in keys ==>
        Earlier(table, keys[i], k)
  {
    SelectedAreDue(table, product, action, now, limit);
    hide Selected, Less;
  }

  /**
    The `i`-th schedule taken is next due one cadence after its second clock reading, was last run at its
    first, keeps its settings, and reads as claimed then.
   */
  lemma ClaimedExactly(table: Table, product: string, action: string, now: Time, limit: nat, ticks: nat -> Time, i: nat)
    requires i < |Selected(table, product, action, now, limit)|
    ensures var key := Selected(table, product, action, now, limit)[i];
      var after := ClaimedTable(table, Selected(table, product, action, now, limit), ticks);
      && key in table && key in after
      && after[key].nextRunAt == ticks(2 * i + 1) + Hours(table[key].cadenceHours) * 3600
      && after[key].lastRunAt == Some(ticks(2 * i)) && after[key].updatedAt == ticks(2 * i)
      && Settings(after[key]) == Settings(table[key])
      && DecodedRow(after[key]) == Claimed(ticks(2 * i))
  {
    var keys := Selected(table, product, action, now, limit);
    SelectedClaimable(table, product, action, now, limit);
    hide Selected, ClaimedTable;
    NthClaimed(table, keys, ticks, i);
    ClampIsHours(table[keys[i]].cadenceHours);
    Literals();
    hide Lower, Trim, Clamp;
  }

  // ---------------------------------------------------------------------------------------
  // Recording.

  /** A result is refused exactly when it completed without an outcome or failed without an error. */
  lemma RefusedExactlyWhen(result: ExecutionResult)
    ensures !AcceptedResult(result) <==>
      (result.CompletedResult? && Trim(result.outcome) == "") || (result.FailedResult? && Trim(result.error) == "")
  {
    hide Trim;
  }

  /** An accepted result changes the execution columns of its schedule, and nothing else. */
  lemma RecordTouchesOnlyState(table: Table, key: Key, result: ExecutionResult, now: Time)
    requires key in table && AcceptedResult(result)
    ensures var after := Recorded(table, key, result, now);
      && after.Keys == table.Keys && (forall k :: k in table && k != key ==> after[k] == table[k])
      && Settings(after[key]) == Settings(table[key]) && after[key].nextRunAt == table[key].nextRunAt
      && after[key].updatedAt == now && after[key].lastRunAt == Some(now) && after[key].lastRunId == result.runId
  {
    hide AcceptedResult;
  }

  // ---------------------------------------------------------------------------------------
  // Reading.

  /** What each stored word can stand for: the other columns must fit it, or the state is unknown. */
  lemma DecodedExactly(row: Row)
    ensures var word, state := Lower(Trim(row.lastStatus)), DecodedRow(row);
      var bare := row.lastRunId.None? && row.lastError.None?;
      && (state.NeverRun? <==> word in {"idle", "never_run"} && row.lastRunAt.None? && bare)
      && (state.Claimed? <==> word in {"claimed", "running"} && row.lastRunAt.Some? && bare)
      && (state.Failed? <==> word in {"error", "failed"} && row.lastRunAt.Some?
                             && row.lastError.Some? && Trim(row.lastError.value) != "")
      && (state.Cancelled? <==> word in {"cancelled", "canceled"} && row.lastRunAt.Some?)
      && (state.Completed? <==> word !in {"", "idle", "never_run", "claimed", "running", "cancelled", "canceled"}
                                && row.lastRunAt.Some? && row.lastError.None?)
      && (state.Completed? ==> state.runId == row.lastRunId && state.outcome == row.lastStatus)
      && (state.Failed? ==> state.runId == row.lastRunId && Some(state.error) == row.lastError)
      && (state.Cancelled? ==> state.runId == row.lastRunId && state.reason == row.lastError)
      && (state.Unknown? ==>
            state.rawStatus == row.lastStatus && state.runId == row.lastRunId && state.detail == row.lastError)
  {
    hide Lower, Trim;
  }

  // ---------------------------------------------------------------------------------------
  // The cadence, both ways.

  /** Nothing writes, deletes or takes the schedule. */
  ghost predicate Untouched(s: State, op: Op, key: Key) {
    && !Writes(s, op, key) && !(op.Delete? && op.key == key)
    && !Takes(ClaimsOf(s.rows, op), key)
  }

  ghost predicate AllUntouched(s: State, ops: seq<Op>, key: Key) {
    if ops == [] then true
    else AllUntouched(s, ops[..|ops| - 1], key) && Untouched(Run(s, ops[..|ops| - 1]), ops[|ops| - 1], key)
  }

  ghost predicate SameTimes(a: Table, b: Table, key: Key) {
    key in a && key in b && a[key].enabled == b[key].enabled && a[key].nextRunAt == b[key].nextRunAt
  }

  lemma UntouchedKeeps(s: State, op: Op, key: Key)
    requires key in s.rows && Untouched(s, op, key)
    ensures SameTimes(s.rows, Apply(s, op).rows, key)
  {
    hide SaveKey, Selected;
    if op.Claim? {
      ClaimLeaves(s, op, key);
      hide Apply, ClaimsOf;
    } else if op.WriteRow? && op.id in s.saves {
      WrittenRow(s.rows, s.saves[op.id], op.now, op.clock);
      hide SavedFrom;
      assert Lookup(Apply(s, op).rows, key) == Lookup(s.rows, key);
    } else {
      hide AcceptedResult, ClaimsOf;
    }
  }

  lemma {:induction false} UntouchedRun(s: State, ops: seq<Op>, key: Key)
    requires key in s.rows && AllUntouched(s, ops, key)
    ensures SameTimes(s.rows, Run(s, ops).rows, key)
  {
    hide Apply, Untouched;
    if ops == [] {
    } else {
      UntouchedRun(s, ops[..|ops| - 1], key);
      UntouchedKeeps(Run(s, ops[..|ops| - 1]), ops[|ops| - 1], key);
    }
  }

  /** A claimed schedule that nobody touches is due again from exactly one cadence after its clock reading. */
  lemma DueAgainExactlyWhen(s: State, claim: Op, ops: seq<Op>, i: nat, t: Time)
    requires claim.Claim? && i < |Selected(s.rows, claim.product, claim.action, claim.now, claim.limit)|
    requires var key := Selected(s.rows, claim.product, claim.action, claim.now, claim.limit)[i];
      AllUntouched(Apply(s, claim), ops, key)
    ensures var key := Selected(s.rows, claim.product, claim.action, claim.now, claim.limit)[i];
      && key in s.rows
      && (key in Due(Run(Apply(s, claim), ops).rows, key.product, key.action, t)
          <==> claim.ticks(2 * i + 1) + Hours(s.rows[key].cadenceHours) * 3600 <= t)
  {
    var keys := Selected(s.rows, claim.product, claim.action, claim.now, claim.limit);
    SelectedAreDue(s.rows, claim.product, claim.action, claim.now, claim.limit);
    ClaimedExactly(s.rows, claim.product, claim.action, claim.now, claim.limit, claim.ticks, i);
    assert Apply(s, claim).rows == ClaimedTable(s.rows, keys, claim.ticks);
    hide Selected, Apply, Run, ClaimedTable, AllUntouched;
    UntouchedRun(Apply(s, claim), ops, keys[i]);
  }
}
