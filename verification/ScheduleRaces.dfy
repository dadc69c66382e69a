/**
  What happens when a claim comes between the read and the write of a save (crates/patchhive-product-
  core/src/scheduling.rs).
 */
module ScheduleRaces {
  import opened Wrappers
  import opened Text
  import opened Scheduling
  import opened ScheduleRuns

  /** A claim takes its place at the end of the log, later than every claim of the same schedule before it. */
  lemma ClaimIsLatest(s: State, claim: Op, i: nat)
    requires claim.Claim? && OpTimed(s, claim) && i < |ClaimsOf(s.rows, claim)|
    requires forall j :: 0 <= j < |s.log| ==> s.log[j].at <= s.time
    ensures var event, after := ClaimsOf(s.rows, claim)[i], Apply(s, claim);
      && event.key in s.rows && s.rows[event.key].enabled && s.rows[event.key].nextRunAt <= event.at <= after.time
      && after.saves == s.saves
      && |s.log| + i < |after.log| && after.log[|s.log| + i] == event
      && forall j :: 0 <= j < |after.log| && after.log[j].key == event.key ==> after.log[j].at <= event.at
  {
    ClaimsAreDue(s, claim);
    ClaimEnds(s, claim);
    assert Apply(s, claim).saves == s.saves;
    hide ClaimsOf, Apply;
  }

  /** Only the latest claim of the schedule matters for whether a write overtakes. */
  lemma OvertakesLatest(s: State, write: Op, i: nat)
    requires write.WriteRow? && write.id in s.saves && s.saves[write.id].input.enabled
    requires i < |s.log| && s.log[i].key == s.saves[write.id].key
    requires forall j :: 0 <= j < |s.log| && s.log[j].key == s.log[i].key ==> s.log[j].at <= s.log[i].at
    ensures Overtakes(s, write) <==>
      var saving := s.saves[write.id];
      NextTime(saving.existing, saving.input, write.clock) < s.log[i].at + HOUR && write.at < s.log[i].at + HOUR
  {
    hide NextTime;
  }

  lemma WriteTimed(s: State, write: Op)
    requires write.WriteRow? && OpTimed(s, write)
    ensures s.time <= write.at
  {}

  lemma StaleWriteIsDue(rows: Table, saving: Saving, write: Op)
    requires write.WriteRow? && saving.input.enabled
    ensures var after := SavedFrom(rows, saving.existing, saving.key, saving.input, write.now, write.clock);
      IsDue(after, saving.key.product, saving.key.action, write.at, saving.key)
      <==> NextTime(saving.existing, saving.input, write.clock) <= write.at
  {
    WrittenRow(rows, saving, write.now, write.clock);
    hide SavedFrom, NextTime;
  }

  lemma StaleTime(row: Row, input: SaveInput, clock: Time)
    ensures NextTime(Some(row), input, clock)
      == if KeepsPlace(Some(row), input) then row.nextRunAt else NextRunAt(Clamp(input.cadenceHours), clock)
  {}

  /**
    A claim that does come between a save's read and its write is overtaken exactly when the save keeps
    its place, or took the clock so early that its cadence ends within an hour of the claim; and
    the schedule is due again at once exactly when the save keeps its place, or its cadence is already over.
   */
  lemma StaleSaveReclaims(s: State, claim: Op, i: nat, id: nat, write: Op)
    requires claim.Claim? && OpTimed(s, claim) && i < |ClaimsOf(s.rows, claim)|
    requires id in s.saves && s.saves[id].key == ClaimsOf(s.rows, claim)[i].key && s.saves[id].input.enabled
    requires s.saves[id].existing == Lookup(s.rows, s.saves[id].key)
    requires forall j :: 0 <= j < |s.log| ==> s.log[j].at <= s.time
    requires write.WriteRow? && write.id == id && OpTimed(Apply(s, claim), write)
    requires write.at < ClaimsOf(s.rows, claim)[i].at + HOUR
    ensures var saving, event, after := s.saves[id], ClaimsOf(s.rows, claim)[i], Apply(Apply(s, claim), write);
      var keeps := KeepsPlace(saving.existing, saving.input);
      var over := NextRunAt(Clamp(saving.input.cadenceHours), write.clock);
      && (Overtakes(Apply(s, claim), write) <==> keeps || over < event.at + HOUR)
      && (IsDue(after.rows, event.key.product, event.key.action, write.at, event.key) <==> keeps || over <= write.at)
  {
    hide Selected, SavedFrom, NextTime, NextRunAt, KeepsPlace, Overtakes, OpTimed, IsDue;
    var saving, event, middle := s.saves[id], ClaimsOf(s.rows, claim)[i], Apply(s, claim);
    ClaimIsLatest(s, claim, i);
    OvertakesLatest(middle, write, |s.log| + i);
    WriteTimed(middle, write);
    StaleWriteIsDue(middle.rows, saving, write);
    StaleTime(s.rows[event.key], saving.input, write.clock);
  }

  // ---------------------------------------------------------------------------------------
  // Two runs in which a claim comes too early.

  /** A save reads, a claim takes the schedule, the save writes, and another claim takes it again. */
  ghost function Race(key: Key, input: SaveInput, clock: Time, first: Time, second: Time): seq<Op> {
    [ReadRow(0, input), Claim(key.product, key.action, 1, first, At(first), first),
     WriteRow(0, clock, clock, first), Claim(key.product, key.action, 1, second, At(second), second)]
  }

  lemma OnlyOneDue(key: Key, row: Row, now: Time)
    requires row.enabled && row.nextRunAt <= now
    ensures Selected(map[key := row], key.product, key.action, now, 1) == [key]
  {
    var table := map[key := row];
    assert Due(table, key.product, key.action, now) == {key};
    DueIsOneAction(table, key.product, key.action, now);
    hide Due;
    assert FirstOf(table, {key}) == key;
    assert {key} - {key} == {};
    assert InOrder(table, {key}) == [key];
  }

  lemma OneClaim(s: State, key: Key, row: Row, now: Time)
    requires s.rows == map[key := row] && row.enabled && row.nextRunAt <= now
    ensures var after := Apply(s, Claim(key.product, key.action, 1, now, At(now), now));
      after == State(map[key := ClaimedRow(row, now, now)], s.saves, s.log + [ClaimEvent(key, now)], now)
    ensures s.time <= now ==> OpTimed(s, Claim(key.product, key.action, 1, now, At(now), now))
  {
    var table := map[key := row];
    OnlyOneDue(key, row, now);
    hide Selected, ClaimedRow;
    assert [key][..0] == [] && ClaimedTable(table, [], At(now)) == table;
    assert ClaimedTable(table, [key], At(now)) == map[key := ClaimedRow(row, now, now)];
    var claim := Claim(key.product, key.action, 1, now, At(now), now);
    assert ClaimsOf(table, claim) == [ClaimEvent(key, now)];
  }

  /** A write to a table of one row. */
  lemma OneWrite(s: State, key: Key, row: Row, saving: Saving, write: Op)
    requires s.rows == map[key := row] && s.saves == map[0 := saving] && saving.key == key
    requires write.WriteRow? && write.id == 0
    ensures var after := Apply(s, write);
      && key in after.rows && after.rows == map[key := after.rows[key]]
      && after.rows[key].enabled == saving.input.enabled
      && after.rows[key].nextRunAt == NextTime(saving.existing, saving.input, write.clock)
      && after.log == s.log && after.time == write.at
    ensures s.time <= write.at && saving.readAt <= write.now <= write.clock <= write.at ==> OpTimed(s, write)
  {
    WrittenRow(s.rows, saving, write.now, write.clock);
    hide SavedFrom, NextTime;
    var rows := Apply(s, write).rows;
    forall k | k != key
      ensures k !in rows
    {
      assert Lookup(rows, k) == Lookup(s.rows, k);
    }
  }

  lemma NoStep(s: State)
    ensures Run(s, []) == s && Timed(s, [])
  {}

  lemma FourSteps(s: State, a: Op, b: Op, c: Op, d: Op)
    ensures Run(s, [a, b, c, d]) == Apply(Apply(Apply(Apply(s, a), b), c), d)
    ensures Timed(s, [a, b, c, d]) <==>
      && OpTimed(s, a) && OpTimed(Apply(s, a), b) && OpTimed(Apply(Apply(s, a), b), c)
      && OpTimed(Apply(Apply(Apply(s, a), b), c), d)
  {
    hide Run, Timed, Apply, OpTimed;
    var ops := [a, b, c, d];
    NoStep(s);
    NextStep(s, ops, 0);
    NextStep(s, ops, 1);
    NextStep(s, ops, 2);
    NextStep(s, ops, 3);
    assert ops[..4] == ops && ops[..0] == [];
  }

  lemma FirstRead(key: Key, row: Row, input: SaveInput)
    requires SaveKey(input) == Some(key)
    ensures Apply(Start(map[key := row], 0), ReadRow(0, input))
      == Start(map[key := row], 0).(saves := map[0 := Saving(key, input, Some(row), 0, 0)])
    ensures OpTimed(Start(map[key := row], 0), ReadRow(0, input))
  {
    hide SaveKey;
  }

  lemma RaceEnds(s: State, key: Key, row: Row, saving: Saving, write: Op, second: Time)
    requires s.rows == map[key := row] && s.saves == map[0 := saving] && saving.key == key && saving.input.enabled
    requires write.WriteRow? && write.id == 0 && s.time <= write.at <= second
    requires saving.readAt <= write.now <= write.clock <= write.at
    requires NextTime(saving.existing, saving.input, write.clock) <= second
    ensures var claim, written := Claim(key.product, key.action, 1, second, At(second), second), Apply(s, write);
      && OpTimed(s, write) && OpTimed(written, claim)
      && Apply(written, claim).log == s.log + [ClaimEvent(key, second)]
  {
    hide *;
    OneWrite(s, key, row, saving, write);
    OneClaim(Apply(s, write), key, Apply(s, write).rows[key], second);
  }

  lemma RaceClaimsTwice(key: Key, row: Row, input: SaveInput, clock: Time, first: Time, second: Time)
    requires SaveKey(input) == Some(key) && row.enabled && input.enabled
    requires row.nextRunAt <= first && clock <= first <= second && NextTime(Some(row), input, clock) <= second
    ensures var s, ops := Start(map[key := row], 0), Race(key, input, clock, first, second);
      Timed(s, ops) && Run(s, ops).log == [ClaimEvent(key, first), ClaimEvent(key, second)]
  {
    var s := Start(map[key := row], 0);
    var read := s.(saves := map[0 := Saving(key, input, Some(row), 0, 0)]);
    var one := Claim(key.product, key.action, 1, first, At(first), first);
    var write := WriteRow(0, clock, clock, first);
    FourSteps(s, ReadRow(0, input), one, write, Claim(key.product, key.action, 1, second, At(second), second));
    FirstRead(key, row, input);
    hide Run, Timed, Apply, OpTimed, At, SaveKey, ClaimedRow, NextTime;
    OneClaim(read, key, row, first);
    RaceEnds(Apply(read, one), key, ClaimedRow(row, first, first), read.saves[0], write, second);
  }

  /** The schedule of the two runs: due at 100, every `cadence` hours. */
  function Nightly(cadence: nat): SaveInput {
    SaveInput("n", "p", "a", "{}", Direct, cadence, true, "")
  }

  function NightlyRow(cadence: nat): Row {
    Row("{}", Direct, cadence, true, "read_only_auto", 0, 0, 100, None, None, "idle", None)
  }

  const NIGHTLY := Key("p", "a", "n")

  lemma LetterIsTrimmed(word: string)
    requires |word| == 1 && 'a' <= word[0] <= 'z'
    ensures Trim(word) == word
  {
    hide Strip, StripStart, StripEnd;
    assert !IsWhitespace(word[0]);
    hide IsWhitespace;
    StripFixed(word, IsWhitespace);
  }

  lemma LetterIsValid(word: string)
    requires |word| == 1 && 'a' <= word[0] <= 'z'
    ensures ValidIdentity(word) && ValidatedName(word) == Some(word)
  {
    hide Trim;
    LetterIsTrimmed(word);
  }

  lemma NightlyKey(cadence: nat)
    ensures SaveKey(Nightly(cadence)) == Some(NIGHTLY)
  {
    hide ValidIdentity, ValidatedName;
    LetterIsValid("p");
    LetterIsValid("a");
    LetterIsValid("n");
  }

  lemma NightlyTimes()
    ensures NextTime(Some(NightlyRow(1)), Nightly(1), 100) == 100
    ensures NextTime(Some(NightlyRow(2)), Nightly(1), 50) == 50 + HOUR
    ensures NightlyRow(1).enabled && NightlyRow(2).enabled && Nightly(1).enabled
    ensures NightlyRow(1).nextRunAt == NightlyRow(2).nextRunAt == 100
  {}

  lemma TooSoon(key: Key, first: Time, second: Time)
    requires second < first + HOUR
    ensures !HourApart([ClaimEvent(key, first), ClaimEvent(key, second)])
  {
    var log := [ClaimEvent(key, first), ClaimEvent(key, second)];
    assert log[0].key == log[1].key;
  }

  /** A save of the same settings puts the claimed time back, and the schedule is claimed twice in one instant. */
  lemma KeptPlaceIsClaimedTwice()
    ensures var s, ops := Start(map[NIGHTLY := NightlyRow(1)], 0), Race(NIGHTLY, Nightly(1), 100, 100, 100);
      Timed(s, ops) && Run(s, ops).log == [ClaimEvent(NIGHTLY, 100), ClaimEvent(NIGHTLY, 100)]
        && !HourApart(Run(s, ops).log)
  {
    NightlyKey(1);
    NightlyTimes();
    TooSoon(NIGHTLY, 100, 100);
    hide *;
    RaceClaimsTwice(NIGHTLY, NightlyRow(1), Nightly(1), 100, 100, 100);
  }

  /** A save that changes the cadence and took the clock before the claim does it too. */
  lemma EarlyClockIsClaimedTwice()
    ensures var s, ops := Start(map[NIGHTLY := NightlyRow(2)], 0), Race(NIGHTLY, Nightly(1), 50, 100, 50 + HOUR);
      Timed(s, ops) && Run(s, ops).log == [ClaimEvent(NIGHTLY, 100), ClaimEvent(NIGHTLY, 50 + HOUR)]
        && !HourApart(Run(s, ops).log)
  {
    NightlyKey(1);
    NightlyTimes();
    TooSoon(NIGHTLY, 100, 50 + HOUR);
    hide *;
    RaceClaimsTwice(NIGHTLY, NightlyRow(2), Nightly(1), 50, 100, 50 + HOUR);
  }
}
