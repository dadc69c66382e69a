/**
  What the schedule store promises over every run. Claims, deletions and recorded results are one
  statement or one transaction each. A save is two: it reads the row, takes the clock, and writes,
  and anything may happen in between.
 */
module ScheduleRuns {
  import opened Wrappers
  import opened Numbers
  import opened Text
  import opened Scheduling
  import opened ScheduleEvidence

  /** A save between its read and its write; `readAt` and `seen` are the time and the number of claims at its read. */
  datatype Saving = Saving(key: Key, input: SaveInput, existing: Option<Row>, readAt: Time, seen: nat)

  /** One schedule taken by a claim, at the time its row says it was claimed. */
  datatype ClaimEvent = ClaimEvent(key: Key, at: Time)

  datatype State = State(rows: Table, saves: map<nat, Saving>, log: seq<ClaimEvent>, time: Time)

  /** Each operation carries its clock readings; a claim reads the clock twice per schedule, up to `done`. */
  datatype Op =
    | ReadRow(id: nat, input: SaveInput)
    | WriteRow(id: nat, now: Time, clock: Time, at: Time)
    | Delete(key: Key)
    | Claim(product: string, action: string, limit: nat, now: Time, ticks: nat -> Time, done: Time)
    | Record(key: Key, result: ExecutionResult, now: Time)

  ghost function ClaimsOf(table: Table, op: Op): seq<ClaimEvent> {
    match op
    case Claim(product, action, limit, now, ticks, _) =>
      var keys := Selected(table, product, action, now, limit);
      seq(|keys|, i requires 0 <= i < |keys| => ClaimEvent(keys[i], ticks(2 * i)))
    case _ => []
  }

  ghost function Apply(s: State, op: Op): State {
    match op
    case ReadRow(id, input) =>
      (match SaveKey(input)
       case None => s
       case Some(key) => s.(saves := s.saves[id := Saving(key, input, Lookup(s.rows, key), s.time, |s.log|)]))
    case WriteRow(id, now, clock, at) =>
      if id !in s.saves then s
      else
        var saving := s.saves[id];
        s.(rows := SavedFrom(s.rows, saving.existing, saving.key, saving.input, now, clock),
           saves := s.saves - {id}, time := at)
    case Delete(key) => s.(rows := s.rows - {key})
    case Claim(product, action, limit, now, ticks, done) =>
      s.(rows := ClaimedTable(s.rows, Selected(s.rows, product, action, now, limit), ticks),
         log := s.log + ClaimsOf(s.rows, op), time := done)
    case Record(key, result, now) => s.(rows := Recorded(s.rows, key, result, now))
  }

  /** The clock does not run backwards: a claim, and a save's write, happen after what was before them. */
  ghost predicate OpTimed(s: State, op: Op) {
    match op
    case WriteRow(id, now, clock, at) => s.time <= at && (id in s.saves ==> s.saves[id].readAt <= now <= clock <= at)
    case Claim(_, _, _, now, ticks, done) =>
      && s.time <= now <= done
      && (forall i :: now <= ticks(i) <= done)
      && forall i, j :: i <= j ==> ticks(i) <= ticks(j)
    case _ => true
  }

  function Start(rows: Table, time: Time): State {
    State(rows, map[], [], time)
  }

  ghost function Run(s: State, ops: seq<Op>): State {
    if ops == [] then s else Apply(Run(s, ops[..|ops| - 1]), ops[|ops| - 1])
  }

  ghost predicate Timed(s: State, ops: seq<Op>) {
    if ops == [] then true
    else Timed(s, ops[..|ops| - 1]) && OpTimed(Run(s, ops[..|ops| - 1]), ops[|ops| - 1])
  }

  lemma NextStep(s: State, ops: seq<Op>, n: nat)
    requires n < |ops|
    ensures Run(s, ops[..n + 1]) == Apply(Run(s, ops[..n]), ops[n])
    ensures Timed(s, ops[..n + 1]) <==> Timed(s, ops[..n]) && OpTimed(Run(s, ops[..n]), ops[n])
  {
    hide Apply, OpTimed;
    assert ops[..n + 1][..n] == ops[..n];
  }

  // ---------------------------------------------------------------------------------------
  // A save that nothing interrupts.

  /** Read and write together are the save of the store. */
  lemma UninterruptedSave(s: State, id: nat, input: SaveInput, now: Time, clock: Time, at: Time)
    ensures SaveKey(input).Some? ==>
      Apply(Apply(s, ReadRow(id, input)), WriteRow(id, now, clock, at)).rows == Saved(s.rows, input, now, clock)
  {
    hide SaveKey, SavedFrom;
  }

  /** A save touches one schedule, never its execution state, and moves its next time only when it loses its place. */
  lemma SaveTouchesOnlySettings(table: Table, input: SaveInput, now: Time, clock: Time)
    requires SaveKey(input).Some?
    ensures var key, after := SaveKey(input).value, Saved(table, input, now, clock);
      && after.Keys == table.Keys + {key}
      && (forall k :: k in table && k != key ==> after[k] == table[k])
      && after[key].enabled == input.enabled && after[key].cadenceHours == Clamp(input.cadenceHours)
      && after[key].payload == input.payload && after[key].mode == input.mode && after[key].updatedAt == now
      && after[key].approvalPolicy
        == (if Trim(input.approvalPolicy) == "" then "read_only_auto" else Trim(input.approvalPolicy))
      && (key in table ==>
            && after[key].createdAt == table[key].createdAt && DecodedRow(after[key]) == DecodedRow(table[key])
            && (KeepsPlace(Lookup(table, key), input) ==> after[key].nextRunAt == table[key].nextRunAt))
      && (!KeepsPlace(Lookup(table, key), input) ==> after[key].nextRunAt == clock + after[key].cadenceHours * HOUR)
      && (key !in table ==> after[key].createdAt == now && DecodedRow(after[key]) == NeverRun)
  {
    Literals();
    hide SaveKey, Trim;
  }

  /** Saving the same settings again, however often, never postpones a schedule. */
  lemma ResavingKeepsPlace(table: Table, input: SaveInput, now: Time, clock: Time, later: Time, laterClock: Time)
    requires SaveKey(input).Some?
    ensures var key, once := SaveKey(input).value, Saved(table, input, now, clock);
      key in once && key in Saved(once, input, later, laterClock)
      && Saved(once, input, later, laterClock)[key].nextRunAt == once[key].nextRunAt
  {
    hide SaveKey, Trim;
    SaveTouchesOnlySettings(table, input, now, clock);
    SaveTouchesOnlySettings(Saved(table, input, now, clock), input, later, laterClock);
    hide Saved;
  }

  /** The write of a save sets one row's switch and next time from what was read, whatever has happened since. */
  lemma WrittenRow(table: Table, saving: Saving, now: Time, clock: Time)
    ensures var after := SavedFrom(table, saving.existing, saving.key, saving.input, now, clock);
      && saving.key in after
      && after[saving.key].enabled == saving.input.enabled
      && after[saving.key].nextRunAt == NextTime(saving.existing, saving.input, clock)
      && forall k :: k != saving.key ==> Lookup(after, k) == Lookup(table, k)
  {
    hide NextTime, Trim;
  }

  // ---------------------------------------------------------------------------------------
  // One claim.

  /** A claim takes only enabled schedules that are due, each once, at a time not before it was due. */
  lemma ClaimsAreDue(s: State, op: Op)
    requires OpTimed(s, op)
    ensures forall i :: 0 <= i < |ClaimsOf(s.rows, op)| ==>
      var event := ClaimsOf(s.rows, op)[i];
      && event.key in s.rows && s.rows[event.key].enabled
      && s.rows[event.key].nextRunAt <= op.now <= event.at <= op.done
    ensures forall i, j :: 0 <= i < j < |ClaimsOf(s.rows, op)| ==>
      ClaimsOf(s.rows, op)[i].key != ClaimsOf(s.rows, op)[j].key
  {
    if op.Claim? {
      SelectedAreDue(s.rows, op.product, op.action, op.now, op.limit);
      hide Selected, Before;
    }
  }

  /** What a claim does to a schedule it takes. */
  lemma ClaimAdvances(s: State, op: Op, i: nat)
    requires OpTimed(s, op) && i < |ClaimsOf(s.rows, op)|
    ensures var event, after := ClaimsOf(s.rows, op)[i], Apply(s, op).rows;
      && event.key in s.rows && event.key in after
      && after[event.key].enabled == s.rows[event.key].enabled
      && event.at + Clamp(s.rows[event.key].cadenceHours) * HOUR <= after[event.key].nextRunAt
  {
    var keys := Selected(s.rows, op.product, op.action, op.now, op.limit);
    SelectedClaimable(s.rows, op.product, op.action, op.now, op.limit);
    hide Selected, Claimable, ClaimedTable;
    NthClaimed(s.rows, keys, op.ticks, i);
    assert op.ticks(2 * i) <= op.ticks(2 * i + 1);
  }

  ghost predicate Takes(events: seq<ClaimEvent>, key: Key) {
    exists i :: 0 <= i < |events| && events[i].key == key
  }

  /** A claim leaves every other schedule alone. */
  lemma ClaimLeaves(s: State, op: Op, key: Key)
    requires op.Claim? && !Takes(ClaimsOf(s.rows, op), key)
    ensures Lookup(Apply(s, op).rows, key) == Lookup(s.rows, key)
  {
    var keys := Selected(s.rows, op.product, op.action, op.now, op.limit);
    hide Selected;
    assert forall i :: 0 <= i < |keys| ==> ClaimsOf(s.rows, op)[i].key == keys[i];
    OthersUnclaimed(s.rows, keys, op.ticks, key);
  }

  // ---------------------------------------------------------------------------------------
  // Claims an hour apart.

  ghost predicate HourApart(log: seq<ClaimEvent>) {
    forall i, j :: 0 <= i < j < |log| && log[i].key == log[j].key ==> log[i].at + HOUR <= log[j].at
  }

  /** By the time an enabled schedule can be claimed again, an hour has passed since `event`. */
  ghost predicate Respects(rows: Table, time: Time, event: ClaimEvent) {
    event.key in rows && rows[event.key].enabled ==>
      event.at + HOUR <= rows[event.key].nextRunAt || event.at + HOUR <= time
  }

  ghost predicate Spaced(s: State) {
    && HourApart(s.log)
    && forall i :: 0 <= i < |s.log| ==> s.log[i].at <= s.time && Respects(s.rows, s.time, s.log[i])
  }

  /** This write puts a time into an enabled row at which it could be claimed within an hour of an earlier claim. */
  ghost predicate Overtakes(s: State, op: Op) {
    && op.WriteRow? && op.id in s.saves
    && var saving := s.saves[op.id];
       && saving.input.enabled
       && exists i :: 0 <= i < |s.log| && s.log[i].key == saving.key
            && NextTime(saving.existing, saving.input, op.clock) < s.log[i].at + HOUR && op.at < s.log[i].at + HOUR
  }

  lemma WriteRespects(rows: Table, after: Table, time: Time, at: Time, key: Key, event: ClaimEvent)
    requires time <= at && Respects(rows, time, event)
    requires forall k :: k != key ==> Lookup(after, k) == Lookup(rows, k)
    requires event.key == key && key in after && after[key].enabled ==>
      event.at + HOUR <= after[key].nextRunAt || event.at + HOUR <= at
    ensures Respects(after, at, event)
  {
    assert event.key != key ==> Lookup(after, event.key) == Lookup(rows, event.key);
  }

  lemma WriteKeepsSpaced(s: State, op: Op)
    requires Spaced(s) && op.WriteRow? && OpTimed(s, op) && !Overtakes(s, op)
    ensures Spaced(Apply(s, op))
  {
    if op.id in s.saves {
      var saving := s.saves[op.id];
      var after := Apply(s, op);
      WrittenRow(s.rows, saving, op.now, op.clock);
      hide SavedFrom, NextTime, Respects, HourApart;
      forall i | 0 <= i < |s.log|
        ensures Respects(after.rows, op.at, s.log[i])
      {
        WriteRespects(s.rows, after.rows, s.time, op.at, saving.key, s.log[i]);
      }
    }
  }

  lemma ClaimEnds(s: State, op: Op)
    requires op.Claim? && OpTimed(s, op)
    ensures s.time <= Apply(s, op).time == op.done
    ensures Apply(s, op).log == s.log + ClaimsOf(s.rows, op)
  {}

  /** After a claim every earlier claim is respected, and so are the new ones. */
  lemma ClaimKeepsRespects(s: State, op: Op, event: ClaimEvent)
    requires Spaced(s) && op.Claim? && OpTimed(s, op)
    requires event in s.log || event in ClaimsOf(s.rows, op)
    ensures Respects(Apply(s, op).rows, Apply(s, op).time, event)
  {
    ClaimsAreDue(s, op);
    hide Apply, ClaimsOf, HourApart;
    var events := ClaimsOf(s.rows, op);
    if Takes(events, event.key) {
      var i :| 0 <= i < |events| && events[i].key == event.key;
      ClaimAdvances(s, op, i);
      if event in events {
        var j :| 0 <= j < |events| && events[j] == event;
        assert i == j;
      }
    } else {
      ClaimLeaves(s, op, event.key);
      ClaimEnds(s, op);
    }
  }

  lemma ClaimKeepsHourApart(s: State, op: Op)
    requires Spaced(s) && op.Claim? && OpTimed(s, op)
    ensures HourApart(s.log + ClaimsOf(s.rows, op))
  {
    ClaimsAreDue(s, op);
    hide ClaimsOf;
  }

  lemma ClaimKeepsSpaced(s: State, op: Op)
    requires Spaced(s) && op.Claim? && OpTimed(s, op)
    ensures Spaced(Apply(s, op))
  {
    ClaimEnds(s, op);
    ClaimsAreDue(s, op);
    ClaimKeepsHourApart(s, op);
    hide Apply, ClaimsOf, HourApart, Respects;
    var after := Apply(s, op);
    forall i | 0 <= i < |after.log|
      ensures after.log[i].at <= after.time && Respects(after.rows, after.time, after.log[i])
    {
      ClaimKeepsRespects(s, op, after.log[i]);
    }
  }

  /** A read, a deletion and a recorded result leave every switch and next time alone. */
  lemma OthersKeepTimes(s: State, op: Op, key: Key)
    requires !op.WriteRow? && !op.Claim?
    ensures var after := Apply(s, op);
      key in after.rows ==>
        key in s.rows && after.rows[key].enabled == s.rows[key].enabled
          && after.rows[key].nextRunAt == s.rows[key].nextRunAt
  {
    hide SaveKey, AcceptedResult;
  }

  lemma OthersKeepLog(s: State, op: Op)
    requires !op.WriteRow? && !op.Claim?
    ensures Apply(s, op).log == s.log && Apply(s, op).time == s.time
  {
    hide SaveKey;
  }

  lemma StepKeepsSpaced(s: State, op: Op)
    requires Spaced(s) && OpTimed(s, op) && !Overtakes(s, op)
    ensures Spaced(Apply(s, op))
  {
    hide Apply, HourApart;
    if op.WriteRow? {
      WriteKeepsSpaced(s, op);
    } else if op.Claim? {
      ClaimKeepsSpaced(s, op);
    } else {
      OthersKeepLog(s, op);
      forall i | 0 <= i < |s.log|
        ensures Respects(Apply(s, op).rows, s.time, s.log[i])
      {
        OthersKeepTimes(s, op, s.log[i].key);
      }
    }
  }

  /** A claim of everything due in one action, at one instant. */
  ghost function ClaimAt(s: State, key: Key, now: Time): Op {
    Claim(key.product, key.action, |Due(s.rows, key.product, key.action, now)|, now, At(now), now)
  }

  lemma ClaimAtTakes(s: State, key: Key, now: Time)
    requires IsDue(s.rows, key.product, key.action, now, key)
    ensures ClaimEvent(key, now) in ClaimsOf(s.rows, ClaimAt(s, key, now))
  {
    var due := Due(s.rows, key.product, key.action, now);
    var keys := Selected(s.rows, key.product, key.action, now, |due|);
    DueIsOneAction(s.rows, key.product, key.action, now);
    assert key in due;
    assert keys == InOrder(s.rows, due) by {
      assert InOrder(s.rows, due)[..|due|] == InOrder(s.rows, due);
    }
    InOrderMembers(s.rows, due, key);
    hide Selected, Due, InOrder;
    var i :| 0 <= i < |keys| && keys[i] == key;
    assert ClaimsOf(s.rows, ClaimAt(s, key, now))[i] == ClaimEvent(key, now);
  }

  /** The schedule written is due from the written time on. */
  lemma WrittenIsDue(s: State, op: Op, now: Time)
    requires op.WriteRow? && op.id in s.saves && s.saves[op.id].input.enabled
    requires NextTime(s.saves[op.id].existing, s.saves[op.id].input, op.clock) <= now
    ensures var key, after := s.saves[op.id].key, Apply(s, op);
      IsDue(after.rows, key.product, key.action, now, key) && after.log == s.log && after.time == op.at
  {
    var saving := s.saves[op.id];
    WrittenRow(s.rows, saving, op.now, op.clock);
    hide SavedFrom, NextTime;
  }

  lemma ClaimAtTimed(s: State, key: Key, now: Time)
    requires s.time <= now
    ensures ClaimAt(s, key, now).Claim? && OpTimed(s, ClaimAt(s, key, now))
  {}

  lemma EarlyClaim(s: State, key: Key, now: Time, i: nat)
    requires IsDue(s.rows, key.product, key.action, now, key) && s.time <= now
    requires i < |s.log| && s.log[i].key == key && now < s.log[i].at + HOUR
    ensures var claim := ClaimAt(s, key, now);
      claim.Claim? && OpTimed(s, claim) && !HourApart(Apply(s, claim).log)
  {
    var claim := ClaimAt(s, key, now);
    ClaimAtTimed(s, key, now);
    ClaimAtTakes(s, key, now);
    ClaimEnds(s, claim);
    hide Apply, OpTimed, ClaimsOf, ClaimAt, IsDue;
    var events := ClaimsOf(s.rows, claim);
    var j :| 0 <= j < |events| && events[j] == ClaimEvent(key, now);
    var log := s.log + events;
    assert log[i] == s.log[i] && log[|s.log| + j] == events[j];
  }

  /** An overtaking write can always be followed by a claim that comes too early. */
  lemma OvertakenClaim(s: State, op: Op) returns (claim: Op)
    requires OpTimed(s, op) && Overtakes(s, op)
    ensures claim.Claim? && OpTimed(Apply(s, op), claim)
    ensures !HourApart(Apply(Apply(s, op), claim).log)
  {
    var saving := s.saves[op.id];
    var i :| 0 <= i < |s.log| && s.log[i].key == saving.key
      && NextTime(saving.existing, saving.input, op.clock) < s.log[i].at + HOUR && op.at < s.log[i].at + HOUR;
    hide *;
    var now := Max(op.at, NextTime(saving.existing, saving.input, op.clock));
    WrittenIsDue(s, op, now);
    claim := ClaimAt(Apply(s, op), saving.key, now);
    EarlyClaim(Apply(s, op), saving.key, now, i);
  }

  ghost predicate NoOvertaking(s: State, ops: seq<Op>) {
    if ops == [] then true
    else NoOvertaking(s, ops[..|ops| - 1]) && !Overtakes(Run(s, ops[..|ops| - 1]), ops[|ops| - 1])
  }

  lemma {:induction false} RunKeepsSpaced(s: State, ops: seq<Op>)
    requires Spaced(s) && Timed(s, ops) && NoOvertaking(s, ops)
    ensures Spaced(Run(s, ops))
  {
    hide Spaced, OpTimed, Overtakes, Apply;
    if ops == [] {
    } else {
      RunKeepsSpaced(s, ops[..|ops| - 1]);
      StepKeepsSpaced(Run(s, ops[..|ops| - 1]), ops[|ops| - 1]);
    }
  }

  /** Whichever claim comes next, at whatever point of the run, claims of one schedule are an hour apart. */
  ghost predicate StaysHourApart(s: State, ops: seq<Op>) {
    forall n, claim: Op :: 0 <= n <= |ops| && claim.Claim? && OpTimed(Run(s, ops[..n]), claim)
      ==> HourApart(Apply(Run(s, ops[..n]), claim).log)
  }

  lemma {:induction false} PrefixTimed(s: State, ops: seq<Op>, n: nat)
    requires n <= |ops| && Timed(s, ops)
    ensures Timed(s, ops[..n])
    ensures NoOvertaking(s, ops) ==> NoOvertaking(s, ops[..n])
  {
    hide OpTimed, Overtakes, Run;
    if n == |ops| {
      assert ops[..n] == ops;
    } else {
      assert ops[..|ops| - 1][..n] == ops[..n];
      PrefixTimed(s, ops[..|ops| - 1], n);
    }
  }

  lemma {:induction false} FirstOvertaking(s: State, ops: seq<Op>) returns (n: nat)
    requires Timed(s, ops) && !NoOvertaking(s, ops)
    ensures n < |ops| && OpTimed(Run(s, ops[..n]), ops[n]) && Overtakes(Run(s, ops[..n]), ops[n])
  {
    hide OpTimed, Overtakes, Run;
    var init := ops[..|ops| - 1];
    if NoOvertaking(s, init) {
      n := |ops| - 1;
    } else {
      n := FirstOvertaking(s, init);
      assert init[..n] == ops[..n];
    }
  }

  lemma ClaimStaysHourApart(s: State, ops: seq<Op>, n: nat, claim: Op)
    requires Spaced(s) && Timed(s, ops) && NoOvertaking(s, ops)
    requires n <= |ops| && claim.Claim? && OpTimed(Run(s, ops[..n]), claim)
    ensures HourApart(Apply(Run(s, ops[..n]), claim).log)
  {
    hide OpTimed, Apply, NoOvertaking, Timed, Run, Respects, HourApart;
    PrefixTimed(s, ops, n);
    RunKeepsSpaced(s, ops[..n]);
    ClaimKeepsSpaced(Run(s, ops[..n]), claim);
  }

  lemma ClaimComesEarly(s: State, ops: seq<Op>) returns (n: nat, claim: Op)
    requires Timed(s, ops) && !NoOvertaking(s, ops)
    ensures n <= |ops| && claim.Claim? && OpTimed(Run(s, ops[..n]), claim)
    ensures !HourApart(Apply(Run(s, ops[..n]), claim).log)
  {
    hide *;
    var i := FirstOvertaking(s, ops);
    NextStep(s, ops, i);
    n := i + 1;
    claim := OvertakenClaim(Run(s, ops[..i]), ops[i]);
  }

  /**
    The spacing holds through a run, whatever is saved, deleted or recorded, exactly when no write of
    a save overtakes a claim: when none makes a schedule due again within an hour of its last claim.
   */
  lemma SpacingExactlyWhen(rows: Table, time: Time, ops: seq<Op>)
    requires Timed(Start(rows, time), ops)
    ensures StaysHourApart(Start(rows, time), ops) <==> NoOvertaking(Start(rows, time), ops)
  {
    var s := Start(rows, time);
    assert Spaced(s);
    hide Spaced, OpTimed, Overtakes, Apply, HourApart, NoOvertaking, Timed, Run;
    if NoOvertaking(s, ops) {
      forall n, claim: Op | 0 <= n <= |ops| && claim.Claim? && OpTimed(Run(s, ops[..n]), claim)
        ensures HourApart(Apply(Run(s, ops[..n]), claim).log)
      {
        ClaimStaysHourApart(s, ops, n, claim);
      }
    } else {
      var n, claim := ClaimComesEarly(s, ops);
    }
  }

  // ---------------------------------------------------------------------------------------
  // What keeps a save from overtaking.

  /**
    No claim of the schedule falls between the read and the write of a save that keeps its place, or
    between the clock reading and the write of one that does not.
   */
  ghost predicate Undisturbed(s: State, op: Op) {
    op.WriteRow? && op.id in s.saves ==>
      var saving := s.saves[op.id];
      forall i :: 0 <= i < |s.log| && s.log[i].key == saving.key ==>
        if KeepsPlace(saving.existing, saving.input) then i < saving.seen else s.log[i].at <= op.clock
  }

  /** The row a save has read respects the claims up to its read. */
  ghost predicate ReadRespects(s: State, saving: Saving) {
    && saving.seen <= |s.log| && saving.readAt <= s.time
    && (saving.existing.Some? ==>
          forall i :: 0 <= i < saving.seen ==>
            Respects(map[saving.key := saving.existing.value], saving.readAt, s.log[i]))
  }

  ghost predicate ReadsRespect(s: State) {
    forall id :: id in s.saves ==> ReadRespects(s, s.saves[id])
  }

  lemma StepKeepsReads(s: State, op: Op)
    requires Spaced(s) && ReadsRespect(s) && OpTimed(s, op)
    ensures ReadsRespect(Apply(s, op))
  {
    hide SaveKey, ClaimsOf, HourApart, SavedFrom, ClaimedTable, Recorded;
  }

  lemma UndisturbedDoesNotOvertake(s: State, op: Op)
    requires Spaced(s) && ReadsRespect(s) && OpTimed(s, op) && Undisturbed(s, op)
    ensures !Overtakes(s, op)
  {
    hide HourApart;
    if op.WriteRow? && op.id in s.saves {
      var saving := s.saves[op.id];
      forall i | 0 <= i < |s.log| && s.log[i].key == saving.key && saving.input.enabled
        ensures s.log[i].at + HOUR <= NextTime(saving.existing, saving.input, op.clock) || s.log[i].at + HOUR <= op.at
      {
        if KeepsPlace(saving.existing, saving.input) {
          assert Respects(map[saving.key := saving.existing.value], saving.readAt, s.log[i]);
        }
      }
    }
  }

  ghost predicate AllUndisturbed(s: State, ops: seq<Op>) {
    if ops == [] then true
    else AllUndisturbed(s, ops[..|ops| - 1]) && Undisturbed(Run(s, ops[..|ops| - 1]), ops[|ops| - 1])
  }

  lemma {:induction false} UndisturbedRun(s: State, ops: seq<Op>)
    requires Spaced(s) && ReadsRespect(s) && Timed(s, ops) && AllUndisturbed(s, ops)
    ensures NoOvertaking(s, ops) && Spaced(Run(s, ops)) && ReadsRespect(Run(s, ops))
  {
    hide Spaced, ReadsRespect, OpTimed, Overtakes, Undisturbed, Apply;
    if ops == [] {
    } else {
      var init, last := ops[..|ops| - 1], ops[|ops| - 1];
      UndisturbedRun(s, init);
      UndisturbedDoesNotOvertake(Run(s, init), last);
      StepKeepsSpaced(Run(s, init), last);
      StepKeepsReads(Run(s, init), last);
    }
  }

  /** In every run whose saves are undisturbed, whatever else happens, claims of one schedule are an hour apart. */
  lemma ClaimsHourApart(rows: Table, time: Time, ops: seq<Op>)
    requires Timed(Start(rows, time), ops) && AllUndisturbed(Start(rows, time), ops)
    ensures HourApart(Run(Start(rows, time), ops).log)
    ensures StaysHourApart(Start(rows, time), ops)
  {
    hide Overtakes, Undisturbed, Apply, OpTimed;
    UndisturbedRun(Start(rows, time), ops);
    hide Timed, NoOvertaking, AllUndisturbed, StaysHourApart;
    SpacingExactlyWhen(rows, time, ops);
  }

  /** A save that nothing comes between is undisturbed. */
  lemma UninterruptedIsUndisturbed(s: State, id: nat, input: SaveInput, write: Op)
    requires Spaced(s) && SaveKey(input).Some?
    requires write.WriteRow? && write.id == id && OpTimed(Apply(s, ReadRow(id, input)), write)
    ensures Undisturbed(Apply(s, ReadRow(id, input)), write)
  {
    hide SaveKey, HourApart;
  }

  // ---------------------------------------------------------------------------------------
  // Claims a cadence apart.

  ghost predicate NotDueBefore(table: Table, key: Key, bound: Time) {
    key in table ==> bound <= table[key].nextRunAt
  }

  /** This operation writes the schedule's cadence, switch and next time. */
  ghost predicate Writes(s: State, op: Op, key: Key) {
    op.WriteRow? && op.id in s.saves && s.saves[op.id].key == key
  }

  ghost predicate NeverWrites(s: State, ops: seq<Op>, key: Key) {
    if ops == [] then true
    else NeverWrites(s, ops[..|ops| - 1], key) && !Writes(Run(s, ops[..|ops| - 1]), ops[|ops| - 1], key)
  }

  ghost predicate NoClaimBefore(events: seq<ClaimEvent>, key: Key, bound: Time) {
    forall i :: 0 <= i < |events| && events[i].key == key ==> bound <= events[i].at
  }

  lemma OpKeepsBound(s: State, op: Op, key: Key, bound: Time)
    requires OpTimed(s, op) && NotDueBefore(s.rows, key, bound) && !Writes(s, op, key)
    ensures NoClaimBefore(ClaimsOf(s.rows, op), key, bound)
    ensures NotDueBefore(Apply(s, op).rows, key, bound)
  {
    hide SaveKey, Selected;
    ClaimsAreDue(s, op);
    if op.Claim? {
      hide OpTimed, Apply, ClaimsOf;
      var events := ClaimsOf(s.rows, op);
      if Takes(events, key) {
        var i :| 0 <= i < |events| && events[i].key == key;
        ClaimAdvances(s, op, i);
      } else {
        ClaimLeaves(s, op, key);
      }
    } else if op.WriteRow? && op.id in s.saves {
      WrittenRow(s.rows, s.saves[op.id], op.now, op.clock);
      hide SavedFrom;
      assert Lookup(Apply(s, op).rows, key) == Lookup(s.rows, key);
    }
  }

  lemma LogGrows(s: State, op: Op)
    ensures Apply(s, op).log == s.log + ClaimsOf(s.rows, op)
  {
    assert s.log + [] == s.log;
  }

  /** A schedule not due before `bound` that nobody saves is not claimed before it. */
  lemma {:induction false} NotClaimedBefore(s: State, ops: seq<Op>, key: Key, bound: Time)
    requires Timed(s, ops) && NotDueBefore(s.rows, key, bound) && NeverWrites(s, ops, key)
    ensures |s.log| <= |Run(s, ops).log| && NoClaimBefore(Run(s, ops).log[|s.log|..], key, bound)
    ensures NotDueBefore(Run(s, ops).rows, key, bound)
  {
    hide NotDueBefore, Apply, ClaimsOf, Writes, OpTimed;
    if ops == [] {
    } else {
      var init, last := ops[..|ops| - 1], ops[|ops| - 1];
      NotClaimedBefore(s, init, key, bound);
      OpKeepsBound(Run(s, init), last, key, bound);
      LogGrows(Run(s, init), last);
    }
  }

  /** Claims are a full cadence apart as long as nobody writes the schedule in between. */
  lemma ClaimsCadenceApart(s: State, claim: Op, ops: seq<Op>, i: nat)
    requires OpTimed(s, claim) && i < |ClaimsOf(s.rows, claim)|
    requires Timed(Apply(s, claim), ops) && NeverWrites(Apply(s, claim), ops, ClaimsOf(s.rows, claim)[i].key)
    ensures var event, after := ClaimsOf(s.rows, claim)[i], Apply(s, claim);
      && event.key in s.rows
      && |after.log| <= |Run(after, ops).log|
      && NoClaimBefore(
           Run(after, ops).log[|after.log|..], event.key, event.at + Clamp(s.rows[event.key].cadenceHours) * HOUR)
  {
    hide Apply, ClaimsOf, OpTimed, Timed, NeverWrites, Run;
    ClaimAdvances(s, claim, i);
    var event := ClaimsOf(s.rows, claim)[i];
    NotClaimedBefore(Apply(s, claim), ops, event.key, event.at + Clamp(s.rows[event.key].cadenceHours) * HOUR);
  }

  // ---------------------------------------------------------------------------------------
  // Stored states stay known.

  ghost predicate AllKnown(table: Table) {
    forall key :: key in table ==> !DecodedRow(table[key]).Unknown?
  }

  lemma ClaimKeepsKnown(table: Table, keys: seq<Key>, ticks: nat -> Time)
    requires AllKnown(table) && Claimable(table, keys)
    ensures AllKnown(ClaimedTable(table, keys, ticks))
  {
    Literals();
    hide Trim, ClaimedTable;
    var after := ClaimedTable(table, keys, ticks);
    forall key | key in after
      ensures !DecodedRow(after[key]).Unknown?
    {
      if key in keys {
        var i :| 0 <= i < |keys| && keys[i] == key;
        NthClaimed(table, keys, ticks, i);
      } else {
        OthersUnclaimed(table, keys, ticks, key);
      }
    }
  }

  lemma OpKeepsKnown(s: State, op: Op)
    requires AllKnown(s.rows)
    requires op.Record? && AcceptedResult(op.result) ==> !Undecodable(op.result)
    ensures AllKnown(Apply(s, op).rows)
  {
    Literals();
    hide Trim;
    match op
    case ReadRow(_, _) => hide SaveKey;
    case WriteRow(_, _, _, _) => hide NextTime;
    case Delete(_) =>
    case Record(key, result, now) =>
      if AcceptedResult(result) && key in s.rows {
        RecordedUnknownExactlyWhen(s.rows[key], result, now);
      }
      hide Undecodable, AcceptedResult, RecordedRow, Decoded;
    case Claim(product, action, limit, now, ticks, _) =>
      var keys := Selected(s.rows, product, action, now, limit);
      SelectedClaimable(s.rows, product, action, now, limit);
      hide Selected;
      ClaimKeepsKnown(s.rows, keys, ticks);
  }

  /**
    Every row a run can reach, interrupted saves included, decodes to a known state, as long as no such
    outcome is recorded.
   */
  lemma {:induction false} ReachableRowsKnown(s: State, ops: seq<Op>)
    requires AllKnown(s.rows)
    requires forall i :: 0 <= i < |ops| && ops[i].Record? && AcceptedResult(ops[i].result) ==>
      !Undecodable(ops[i].result)
    ensures AllKnown(Run(s, ops).rows)
  {
    hide AllKnown, Apply, Undecodable, AcceptedResult;
    if ops == [] {
    } else {
      var init := ops[..|ops| - 1];
      ReachableRowsKnown(s, init);
      OpKeepsKnown(Run(s, init), ops[|ops| - 1]);
    }
  }
}
