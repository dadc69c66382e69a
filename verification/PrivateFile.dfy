/**
  The atomic update of a private text file (crates/patchhive-product-core/src/environment.rs) as a
  protocol: any number of processes and threads, each call taking the process mutex, then the file
  lock, then reading, transforming, writing a temporary file and renaming it over the target. Any
  step may fail, panic, or be cut short by the death of the process.
 */
module PrivateFile {
  import opened Wrappers

  type Update = string -> Result<string, string>

  datatype Phase =
    | Waiting
    | Locked                                           // holds the process mutex
    | Guarded                                          // and the file lock
    | HasRead(existing: string)
    | Computed(next: string)
    | Writing(temp: nat, next: string, written: nat)   // the pending file is armed
    | Synced(temp: nat, next: string)
    | Renamed                                          // disarmed
    | Returned(ok: bool)
    | Crashed

  datatype Call = Call(process: nat, update: Update, phase: Phase)

  datatype State = State(
    calls: seq<Call>,
    target: Option<string>,
    temps: map<nat, string>,     // temporary files on disk
    mutex: map<nat, nat>,        // process to the call that holds its mutex
    fileLock: Option<nat>,
    poisoned: set<nat>,          // processes whose mutex was poisoned by a panic
    committed: seq<nat>,         // calls in the order of their renames
    orphans: set<nat>)           // temporary files nobody will remove

  datatype Event =
    | Begin(process: nat, update: Update)
    | TakeMutex(c: nat)
    | RefusePoisoned(c: nat)
    | TakeFileLock(c: nat)
    | Read(c: nat)
    | Compute(c: nat)
    | CreateTemp(c: nat, temp: nat)
    | Write(c: nat, upTo: nat)
    | Sync(c: nat)
    | Rename(c: nat)
    | Finish(c: nat)
    | Fail(c: nat, removed: bool)
    | Panic(c: nat, removed: bool)
    | Crash(process: nat)

  predicate HoldsMutex(phase: Phase) {
    !phase.Waiting? && !phase.Returned? && !phase.Crashed?
  }

  predicate HoldsFileLock(phase: Phase) {
    HoldsMutex(phase) && !phase.Locked?
  }

  predicate Armed(phase: Phase) {
    phase.Writing? || phase.Synced?
  }

  /** The text an update sees: a missing file reads as empty. */
  function Content(target: Option<string>): string {
    if target.Some? then target.value else ""
  }

  function Start(target: Option<string>): State {
    State([], target, map[], map[], None, {}, [], {})
  }

  function PhaseOf(s: State, c: nat): Phase {
    if c < |s.calls| then s.calls[c].phase else Crashed
  }

  predicate Enabled(s: State, e: Event) {
    match e
    case Begin(_, _) => true
    case TakeMutex(c) => PhaseOf(s, c).Waiting? && s.calls[c].process !in s.mutex && s.calls[c].process !in s.poisoned
    case RefusePoisoned(c) =>
      PhaseOf(s, c).Waiting? && s.calls[c].process !in s.mutex && s.calls[c].process in s.poisoned
    case TakeFileLock(c) => PhaseOf(s, c).Locked? && s.fileLock.None?
    case Read(c) => PhaseOf(s, c).Guarded?
    case Compute(c) => PhaseOf(s, c).HasRead? && s.calls[c].update(PhaseOf(s, c).existing).Ok?
    case CreateTemp(c, temp) => PhaseOf(s, c).Computed? && temp !in s.temps
    case Write(c, upTo) => PhaseOf(s, c).Writing? && PhaseOf(s, c).written <= upTo <= |PhaseOf(s, c).next|
    case Sync(c) => PhaseOf(s, c).Writing? && PhaseOf(s, c).written == |PhaseOf(s, c).next|
    case Rename(c) => PhaseOf(s, c).Synced? && PhaseOf(s, c).temp in s.temps
    case Finish(c) => PhaseOf(s, c).Renamed?
    case Fail(c, _) => HoldsMutex(PhaseOf(s, c))
    case Panic(c, _) => HoldsMutex(PhaseOf(s, c))
    case Crash(_) => true
  }

  function SetPhase(s: State, c: nat, phase: Phase): State
    requires c < |s.calls|
  {
    s.(calls := s.calls[c := s.calls[c].(phase := phase)])
  }

  /** Leaving a call early drops the pending file if it is armed, then the file lock, then the mutex. */
  function Unwind(s: State, c: nat, removed: bool, ok: bool): State
    requires HoldsMutex(PhaseOf(s, c))
  {
    var phase := s.calls[c].phase;
    SetPhase(s, c, Returned(ok)).(
      temps := if Armed(phase) && removed then s.temps - {phase.temp} else s.temps,
      orphans := if Armed(phase) && !removed then s.orphans + {phase.temp} else s.orphans,
      fileLock := if s.fileLock == Some(c) then None else s.fileLock,
      mutex := s.mutex - {s.calls[c].process})
  }

  function Killed(call: Call, process: nat): Call {
    if call.process == process && !call.phase.Returned? then call.(phase := Crashed) else call
  }

  function Died(s: State, process: nat): State {
    var holder := if s.fileLock.Some? && s.fileLock.value < |s.calls| && s.calls[s.fileLock.value].process == process
                  then s.fileLock else None;
    s.(calls := seq(|s.calls|, i requires 0 <= i < |s.calls| => Killed(s.calls[i], process)),
       mutex := s.mutex - {process},
       fileLock := if holder.Some? then None else s.fileLock,
       orphans := if holder.Some? && Armed(s.calls[holder.value].phase)
                  then s.orphans + {s.calls[holder.value].phase.temp} else s.orphans)
  }

  function Apply(s: State, e: Event): State
    requires Enabled(s, e)
  {
    match e
    case Begin(process, update) => s.(calls := s.calls + [Call(process, update, Waiting)])
    case TakeMutex(c) => SetPhase(s, c, Locked).(mutex := s.mutex[s.calls[c].process := c])
    case RefusePoisoned(c) => SetPhase(s, c, Returned(false))
    case TakeFileLock(c) => SetPhase(s, c, Guarded).(fileLock := Some(c))
    case Read(c) => SetPhase(s, c, HasRead(Content(s.target)))
    case Compute(c) => SetPhase(s, c, Computed(s.calls[c].update(PhaseOf(s, c).existing).value))
    case CreateTemp(c, temp) => SetPhase(s, c, Writing(temp, PhaseOf(s, c).next, 0)).(temps := s.temps[temp := ""])
    case Write(c, upTo) =>
      var phase := PhaseOf(s, c);
      SetPhase(s, c, phase.(written := upTo)).(temps := s.temps[phase.temp := phase.next[..upTo]])
    case Sync(c) => SetPhase(s, c, Synced(PhaseOf(s, c).temp, PhaseOf(s, c).next))
    case Rename(c) =>
      var temp := PhaseOf(s, c).temp;
      SetPhase(s, c, Renamed).(target := Some(s.temps[temp]), temps := s.temps - {temp}, committed := s.committed + [c])
    case Finish(c) => Unwind(s, c, true, true)
    case Fail(c, removed) => Unwind(s, c, removed, false)
    case Panic(c, removed) =>
      var process := s.calls[c].process;
      var after := Unwind(s, c, removed, false);
      after.(poisoned := after.poisoned + {process})
    case Crash(process) => Died(s, process)
  }

  // ---------------------------------------------------------------------------------------
  // What every step keeps.

  /** At most one call is between taking the file lock and letting it go; same for each process mutex. */
  ghost predicate LocksHeld(s: State) {
    && (forall c :: 0 <= c < |s.calls| ==> (HoldsFileLock(s.calls[c].phase) <==> s.fileLock == Some(c)))
    && (s.fileLock.Some? ==> s.fileLock.value < |s.calls|)
    && (forall c :: 0 <= c < |s.calls| ==>
          (HoldsMutex(s.calls[c].phase) <==> (s.calls[c].process in s.mutex && s.mutex[s.calls[c].process] == c)))
    && (forall p :: p in s.mutex ==> s.mutex[p] < |s.calls| && s.calls[s.mutex[p]].process == p)
  }

  /** The call holding the file lock works from what the target still holds. */
  ghost predicate WorkIsCurrent(s: State) {
    forall c :: 0 <= c < |s.calls| ==>
      var call := s.calls[c];
      match call.phase
      case HasRead(existing) => existing == Content(s.target)
      case Computed(next) => call.update(Content(s.target)) == Ok(next)
      case Writing(_, next, _) => call.update(Content(s.target)) == Ok(next)
      case Synced(_, next) => call.update(Content(s.target)) == Ok(next)
      case _ => true
  }

  /** The armed temporary file holds what has been written; the others on disk are orphans. */
  ghost predicate TempsTracked(s: State) {
    && (forall c :: 0 <= c < |s.calls| && s.calls[c].phase.Writing? ==>
          var phase := s.calls[c].phase;
          phase.temp in s.temps && phase.temp !in s.orphans
          && phase.written <= |phase.next| && s.temps[phase.temp] == phase.next[..phase.written])
    && (forall c :: 0 <= c < |s.calls| && s.calls[c].phase.Synced? ==>
          var phase := s.calls[c].phase;
          phase.temp in s.temps && phase.temp !in s.orphans && s.temps[phase.temp] == phase.next)
    && s.orphans <= s.temps.Keys
    && (forall temp :: temp in s.temps && temp !in s.orphans ==>
          s.fileLock.Some? && Armed(PhaseOf(s, s.fileLock.value)) && PhaseOf(s, s.fileLock.value).temp == temp)
  }

  /** A call is in the log once it has renamed, and only then; successful calls have. */
  ghost predicate LogIsComplete(s: State) {
    && (forall i :: 0 <= i < |s.committed| ==>
          && s.committed[i] < |s.calls|
          && var phase := s.calls[s.committed[i]].phase;
             phase.Renamed? || phase.Returned? || phase.Crashed?)
    && (forall i, j :: 0 <= i < j < |s.committed| ==> s.committed[i] != s.committed[j])
    && (forall c :: 0 <= c < |s.calls| && (s.calls[c].phase.Renamed? || s.calls[c].phase == Returned(true)) ==>
          c in s.committed)
  }

  /** The target after the updates of `log`, one after the other. */
  ghost function Folded(initial: Option<string>, calls: seq<Call>, log: seq<nat>): Option<string>
    requires forall i :: 0 <= i < |log| ==> log[i] < |calls|
  {
    if log == [] then initial
    else
      var before := Folded(initial, calls, log[..|log| - 1]);
      match calls[log[|log| - 1]].update(Content(before))
      case Ok(next) => Some(next)
      case Err(_) => before
  }

  ghost predicate TargetIsFold(initial: Option<string>, s: State) {
    && (forall i :: 0 <= i < |s.committed| ==> s.committed[i] < |s.calls|)
    && s.target == Folded(initial, s.calls, s.committed)
  }

  ghost predicate Inv(initial: Option<string>, s: State) {
    LocksHeld(s) && WorkIsCurrent(s) && TempsTracked(s) && LogIsComplete(s) && TargetIsFold(initial, s)
  }

  /** The steps that take locks, and those that work under them. */
  predicate IsEntry(e: Event) {
    e.Begin? || e.TakeMutex? || e.RefusePoisoned? || e.TakeFileLock?
  }

  predicate IsExit(e: Event) {
    e.Finish? || e.Fail? || e.Panic? || e.Crash?
  }

  /** Nobody else is at work while a call transfers. */
  lemma HolderIsAlone(s: State, c: nat)
    requires LocksHeld(s) && HoldsFileLock(PhaseOf(s, c))
    ensures c < |s.calls| && s.fileLock == Some(c)
    ensures forall d :: 0 <= d < |s.calls| && d != c ==> !HoldsFileLock(s.calls[d].phase)
  {}

  lemma PhaseKeepsLocks(s: State, c: nat, phase: Phase)
    requires LocksHeld(s) && HoldsFileLock(PhaseOf(s, c)) && HoldsFileLock(phase)
    ensures LocksHeld(SetPhase(s, c, phase))
  {}

  lemma LocksFrame(s: State, after: State)
    requires LocksHeld(s) && after.calls == s.calls && after.mutex == s.mutex && after.fileLock == s.fileLock
    ensures LocksHeld(after)
  {}

  lemma UnwindKeepsLocks(s: State, c: nat, removed: bool, ok: bool)
    requires LocksHeld(s) && HoldsMutex(PhaseOf(s, c))
    ensures LocksHeld(Unwind(s, c, removed, ok))
  {}

  lemma DeathKeepsLocks(s: State, process: nat)
    requires LocksHeld(s)
    ensures LocksHeld(Died(s, process))
  {}

  lemma EntryKeepsLocks(s: State, e: Event)
    requires LocksHeld(s) && Enabled(s, e) && IsEntry(e)
    ensures LocksHeld(Apply(s, e))
  {
    hide Unwind, Died;
  }

  lemma TransferKeepsLocks(s: State, e: Event)
    requires LocksHeld(s) && Enabled(s, e) && !IsEntry(e) && !IsExit(e)
    ensures LocksHeld(Apply(s, e))
  {
    hide LocksHeld;
    var phase := Apply(s, e).calls[e.c].phase;
    PhaseKeepsLocks(s, e.c, phase);
    LocksFrame(SetPhase(s, e.c, phase), Apply(s, e));
  }

  lemma PoisonKeepsLocks(s: State, process: nat)
    requires LocksHeld(s)
    ensures LocksHeld(s.(poisoned := s.poisoned + {process}))
  {}

  lemma StepKeepsLocks(s: State, e: Event)
    requires LocksHeld(s) && Enabled(s, e)
    ensures LocksHeld(Apply(s, e))
  {
    hide Unwind, Died, LocksHeld;
    match e {
      case Finish(c) => UnwindKeepsLocks(s, c, true, true);
      case Fail(c, removed) => UnwindKeepsLocks(s, c, removed, false);
      case Panic(c, removed) =>
        UnwindKeepsLocks(s, c, removed, false);
        PoisonKeepsLocks(Unwind(s, c, removed, false), s.calls[c].process);
      case Crash(process) => DeathKeepsLocks(s, process);
      case _ => if IsEntry(e) { EntryKeepsLocks(s, e); } else { TransferKeepsLocks(s, e); }
    }
  }

  lemma UnwindKeepsWork(s: State, c: nat, removed: bool, ok: bool)
    requires LocksHeld(s) && WorkIsCurrent(s) && HoldsMutex(PhaseOf(s, c))
    ensures WorkIsCurrent(Unwind(s, c, removed, ok))
  {}

  lemma DeathKeepsWork(s: State, process: nat)
    requires LocksHeld(s) && WorkIsCurrent(s)
    ensures WorkIsCurrent(Died(s, process))
  {}

  lemma EntryKeepsWork(s: State, e: Event)
    requires LocksHeld(s) && WorkIsCurrent(s) && Enabled(s, e) && IsEntry(e)
    ensures WorkIsCurrent(Apply(s, e))
  {
    hide Unwind, Died;
  }

  lemma TransferKeepsWork(s: State, e: Event)
    requires LocksHeld(s) && WorkIsCurrent(s) && TempsTracked(s) && Enabled(s, e) && !IsEntry(e) && !IsExit(e)
    ensures WorkIsCurrent(Apply(s, e))
  {
    HolderIsAlone(s, e.c);
    hide LocksHeld, Unwind, Died;
  }

  lemma PoisonKeepsWork(s: State, process: nat)
    requires WorkIsCurrent(s)
    ensures WorkIsCurrent(s.(poisoned := s.poisoned + {process}))
  {}

  lemma StepKeepsWork(s: State, e: Event)
    requires LocksHeld(s) && WorkIsCurrent(s) && TempsTracked(s) && Enabled(s, e)
    ensures WorkIsCurrent(Apply(s, e))
  {
    hide Unwind, Died, LocksHeld, WorkIsCurrent, TempsTracked;
    match e {
      case Finish(c) => UnwindKeepsWork(s, c, true, true);
      case Fail(c, removed) => UnwindKeepsWork(s, c, removed, false);
      case Panic(c, removed) =>
        UnwindKeepsWork(s, c, removed, false);
        PoisonKeepsWork(Unwind(s, c, removed, false), s.calls[c].process);
      case Crash(process) => DeathKeepsWork(s, process);
      case _ => if IsEntry(e) { EntryKeepsWork(s, e); } else { TransferKeepsWork(s, e); }
    }
  }

  lemma UnwindKeepsTemps(s: State, c: nat, removed: bool, ok: bool)
    requires LocksHeld(s) && TempsTracked(s) && HoldsMutex(PhaseOf(s, c))
    ensures TempsTracked(Unwind(s, c, removed, ok))
  {}

  lemma DeathKeepsTemps(s: State, process: nat)
    requires LocksHeld(s) && TempsTracked(s)
    ensures TempsTracked(Died(s, process))
  {}

  lemma EntryKeepsTemps(s: State, e: Event)
    requires LocksHeld(s) && TempsTracked(s) && Enabled(s, e) && IsEntry(e)
    ensures TempsTracked(Apply(s, e))
  {
    hide Unwind, Died;
  }

  lemma ReadingKeepsTemps(s: State, e: Event)
    requires LocksHeld(s) && TempsTracked(s) && Enabled(s, e) && (e.Read? || e.Compute?)
    ensures TempsTracked(Apply(s, e))
  {
    HolderIsAlone(s, e.c);
    hide LocksHeld, Unwind, Died;
  }

  lemma CreateKeepsTemps(s: State, e: Event)
    requires LocksHeld(s) && TempsTracked(s) && Enabled(s, e) && e.CreateTemp?
    ensures TempsTracked(Apply(s, e))
  {
    HolderIsAlone(s, e.c);
    hide LocksHeld, Unwind, Died;
  }

  lemma WriteKeepsTemps(s: State, e: Event)
    requires LocksHeld(s) && TempsTracked(s) && Enabled(s, e) && e.Write?
    ensures TempsTracked(Apply(s, e))
  {
    HolderIsAlone(s, e.c);
    hide LocksHeld, Unwind, Died;
  }

  lemma SyncKeepsTemps(s: State, e: Event)
    requires LocksHeld(s) && TempsTracked(s) && Enabled(s, e) && e.Sync?
    ensures TempsTracked(Apply(s, e))
  {
    HolderIsAlone(s, e.c);
    hide LocksHeld, Unwind, Died;
  }

  lemma RenameKeepsTemps(s: State, e: Event)
    requires LocksHeld(s) && TempsTracked(s) && Enabled(s, e) && e.Rename?
    ensures TempsTracked(Apply(s, e))
  {
    HolderIsAlone(s, e.c);
    hide LocksHeld, Unwind, Died;
  }

  lemma PoisonKeepsTemps(s: State, process: nat)
    requires TempsTracked(s)
    ensures TempsTracked(s.(poisoned := s.poisoned + {process}))
  {}

  lemma StepKeepsTemps(s: State, e: Event)
    requires LocksHeld(s) && TempsTracked(s) && Enabled(s, e)
    ensures TempsTracked(Apply(s, e))
  {
    hide Unwind, Died, LocksHeld, TempsTracked;
    match e {
      case Finish(c) => UnwindKeepsTemps(s, c, true, true);
      case Fail(c, removed) => UnwindKeepsTemps(s, c, removed, false);
      case Panic(c, removed) =>
        UnwindKeepsTemps(s, c, removed, false);
        PoisonKeepsTemps(Unwind(s, c, removed, false), s.calls[c].process);
      case Crash(process) => DeathKeepsTemps(s, process);
      case Read(_) => ReadingKeepsTemps(s, e);
      case Compute(_) => ReadingKeepsTemps(s, e);
      case CreateTemp(_, _) => CreateKeepsTemps(s, e);
      case Write(_, _) => WriteKeepsTemps(s, e);
      case Sync(_) => SyncKeepsTemps(s, e);
      case Rename(_) => RenameKeepsTemps(s, e);
      case _ => EntryKeepsTemps(s, e);
    }
  }

  lemma UnwindKeepsLog(s: State, c: nat, removed: bool, ok: bool)
    requires LocksHeld(s) && LogIsComplete(s) && HoldsMutex(PhaseOf(s, c))
    requires ok ==> s.calls[c].phase.Renamed?
    ensures LogIsComplete(Unwind(s, c, removed, ok))
  {}

  lemma DeathKeepsLog(s: State, process: nat)
    requires LocksHeld(s) && LogIsComplete(s)
    ensures LogIsComplete(Died(s, process))
  {}

  lemma EntryKeepsLog(s: State, e: Event)
    requires LocksHeld(s) && LogIsComplete(s) && Enabled(s, e) && IsEntry(e)
    ensures LogIsComplete(Apply(s, e))
  {
    hide Unwind, Died;
  }

  lemma WorkingKeepsLog(s: State, e: Event)
    requires LocksHeld(s) && LogIsComplete(s) && Enabled(s, e) && !IsEntry(e) && !IsExit(e) && !e.Rename?
    ensures LogIsComplete(Apply(s, e))
  {
    HolderIsAlone(s, e.c);
    hide LocksHeld, Unwind, Died;
  }

  lemma RenameKeepsLog(s: State, e: Event)
    requires LocksHeld(s) && LogIsComplete(s) && Enabled(s, e) && e.Rename?
    ensures LogIsComplete(Apply(s, e))
  {
    HolderIsAlone(s, e.c);
    hide LocksHeld, Unwind, Died;
  }

  lemma PoisonKeepsLog(s: State, process: nat)
    requires LogIsComplete(s)
    ensures LogIsComplete(s.(poisoned := s.poisoned + {process}))
  {}

  lemma StepKeepsLog(s: State, e: Event)
    requires LocksHeld(s) && LogIsComplete(s) && Enabled(s, e)
    ensures LogIsComplete(Apply(s, e))
  {
    hide Unwind, Died, LocksHeld, LogIsComplete;
    match e {
      case Finish(c) => UnwindKeepsLog(s, c, true, true);
      case Fail(c, removed) => UnwindKeepsLog(s, c, removed, false);
      case Panic(c, removed) =>
        UnwindKeepsLog(s, c, removed, false);
        PoisonKeepsLog(Unwind(s, c, removed, false), s.calls[c].process);
      case Crash(process) => DeathKeepsLog(s, process);
      case Rename(_) => RenameKeepsLog(s, e);
      case _ => if IsEntry(e) { EntryKeepsLog(s, e); } else { WorkingKeepsLog(s, e); }
    }
  }

  lemma {:induction false} FoldedFrame(initial: Option<string>, calls: seq<Call>, after: seq<Call>, log: seq<nat>)
    requires forall i :: 0 <= i < |log| ==> log[i] < |calls|
    requires |calls| <= |after| && forall c :: 0 <= c < |calls| ==> after[c].update == calls[c].update
    ensures Folded(initial, after, log) == Folded(initial, calls, log)
  {
    if log == [] {
    } else {
      FoldedFrame(initial, calls, after, log[..|log| - 1]);
    }
  }

  /** No step changes the update of a call, and only a rename changes the target or the log. */
  lemma StepFrame(s: State, e: Event)
    requires Enabled(s, e)
    ensures var after := Apply(s, e);
      && |s.calls| <= |after.calls|
      && (forall c :: 0 <= c < |s.calls| ==> after.calls[c].update == s.calls[c].update)
      && if e.Rename? then after.committed == s.committed + [e.c]
         else after.committed == s.committed && after.target == s.target
  {}

  /** A rename replaces the target by what the update makes of it. */
  lemma RenameCommits(s: State, c: nat)
    requires WorkIsCurrent(s) && TempsTracked(s) && Enabled(s, Rename(c))
    ensures s.calls[c].update(Content(s.target)).Ok?
    ensures Apply(s, Rename(c)).target == Some(s.calls[c].update(Content(s.target)).value)
  {}

  lemma StepKeepsFold(initial: Option<string>, s: State, e: Event)
    requires LocksHeld(s) && WorkIsCurrent(s) && TempsTracked(s) && TargetIsFold(initial, s) && Enabled(s, e)
    ensures TargetIsFold(initial, Apply(s, e))
  {
    var after := Apply(s, e);
    if e.Rename? {
      RenameCommits(s, e.c);
    }
    StepFrame(s, e);
    hide Apply, Enabled, LocksHeld, WorkIsCurrent, TempsTracked;
    FoldedFrame(initial, s.calls, after.calls, s.committed);
    if e.Rename? {
      assert after.committed[..|s.committed|] == s.committed;
    }
  }

  lemma StepKeepsInv(initial: Option<string>, s: State, e: Event)
    requires Inv(initial, s) && Enabled(s, e)
    ensures Inv(initial, Apply(s, e))
  {
    hide LocksHeld, WorkIsCurrent, TempsTracked, LogIsComplete, TargetIsFold, Apply;
    StepKeepsLocks(s, e);
    StepKeepsWork(s, e);
    StepKeepsTemps(s, e);
    StepKeepsLog(s, e);
    StepKeepsFold(initial, s, e);
  }

  // ---------------------------------------------------------------------------------------
  // Runs.

  predicate IsRun(s: State, events: seq<Event>)
    decreases |events|
  {
    events == [] || (Enabled(s, events[0]) && IsRun(Apply(s, events[0]), events[1..]))
  }

  function Final(s: State, events: seq<Event>): State
    requires IsRun(s, events)
    decreases |events|
  {
    if events == [] then s else Final(Apply(s, events[0]), events[1..])
  }

  lemma {:induction false} RunKeepsInv(initial: Option<string>, s: State, events: seq<Event>)
    requires Inv(initial, s) && IsRun(s, events)
    ensures Inv(initial, Final(s, events))
    decreases |events|
  {
    hide Inv, Apply, Enabled;
    if events == [] {
    } else {
      StepKeepsInv(initial, s, events[0]);
      RunKeepsInv(initial, Apply(s, events[0]), events[1..]);
    }
  }

  /** A call is in the log exactly when it was before or has been renamed since. */
  lemma {:induction false} LoggedExactlyWhenRenamed(s: State, events: seq<Event>, c: nat)
    requires IsRun(s, events)
    ensures c in Final(s, events).committed <==> c in s.committed || Rename(c) in events
    decreases |events|
  {
    if events == [] {
    } else {
      StepFrame(s, events[0]);
      assert events == [events[0]] + events[1..];
      hide Apply, Enabled;
      LoggedExactlyWhenRenamed(Apply(s, events[0]), events[1..], c);
    }
  }

  /**
    Under any interleaving, with failures, panics and process deaths anywhere, the target is the
    initial text put through the updates that renamed, in the order of their renames. Every call
    that succeeded is among them, exactly once. Any call is among them exactly when it got as far as its
    rename, however it ended: an error does not say that nothing happened.
   */
  lemma TargetIsFoldOfCommits(initial: Option<string>, events: seq<Event>)
    requires IsRun(Start(initial), events)
    ensures var s := Final(Start(initial), events);
      && (forall i :: 0 <= i < |s.committed| ==> s.committed[i] < |s.calls|)
      && s.target == Folded(initial, s.calls, s.committed)
      && (forall i, j :: 0 <= i < j < |s.committed| ==> s.committed[i] != s.committed[j])
      && (forall c :: 0 <= c < |s.calls| && s.calls[c].phase == Returned(true) ==> c in s.committed)
      && (forall c: nat :: c in s.committed <==> Rename(c) in events)
  {
    assert Inv(initial, Start(initial));
    RunKeepsInv(initial, Start(initial), events);
    forall c: nat
      ensures c in Final(Start(initial), events).committed <==> Rename(c) in events
    {
      LoggedExactlyWhenRenamed(Start(initial), events, c);
    }
  }

  /** Once every call has returned, the locks are free and the only files left beside the target are orphans. */
  lemma QuietMeansClean(initial: Option<string>, events: seq<Event>)
    requires IsRun(Start(initial), events)
    requires forall c :: 0 <= c < |Final(Start(initial), events).calls| ==>
      Final(Start(initial), events).calls[c].phase.Returned?
    ensures var s := Final(Start(initial), events);
      s.fileLock.None? && s.mutex == map[] && s.temps.Keys == s.orphans
  {
    assert Inv(initial, Start(initial));
    RunKeepsInv(initial, Start(initial), events);
    var s := Final(Start(initial), events);
    assert s.fileLock.None?;
    assert forall p :: p !in s.mutex;
  }

  /** Leaving early, in whatever way, neither changes the target nor takes back a rename. */
  lemma ExitChangesNothing(s: State, e: Event)
    requires Enabled(s, e) && (e.Fail? || e.Panic? || e.Crash?)
    ensures Apply(s, e).target == s.target && Apply(s, e).committed == s.committed
  {
    StepFrame(s, e);
  }

  /** One call, at work alone. */
  function Alone(
    update: Update, phase: Phase, target: Option<string>, temps: map<nat, string>, committed: seq<nat>): State {
    State([Call(0, update, phase)], target, temps, if HoldsMutex(phase) then map[0 := 0] else map[],
          if HoldsFileLock(phase) then Some(0) else None, {}, committed, {})
  }

  /** From `s` the step `e` leads to `after`. */
  ghost predicate Leads(s: State, e: Event, after: State) {
    Enabled(s, e) && Apply(s, e) == after
  }

  lemma AloneEnters(update: Update, t: Option<string>)
    ensures Leads(Start(t), Begin(0, update), Alone(update, Waiting, t, map[], []))
    ensures Leads(Alone(update, Waiting, t, map[], []), TakeMutex(0), Alone(update, Locked, t, map[], []))
    ensures Leads(Alone(update, Locked, t, map[], []), TakeFileLock(0), Alone(update, Guarded, t, map[], []))
  {}

  lemma AloneWorks(update: Update, t: Option<string>, text: string)
    requires update(Content(t)) == Ok(text)
    ensures Leads(Alone(update, Guarded, t, map[], []), Read(0), Alone(update, HasRead(Content(t)), t, map[], []))
    ensures Leads(
              Alone(update, HasRead(Content(t)), t, map[], []), Compute(0),
              Alone(update, Computed(text), t, map[], []))
    ensures Leads(
              Alone(update, Computed(text), t, map[], []), CreateTemp(0, 0),
              Alone(update, Writing(0, text, 0), t, map[0 := ""], []))
  {}

  lemma AloneWrites(update: Update, t: Option<string>, text: string)
    ensures Leads(
              Alone(update, Writing(0, text, 0), t, map[0 := ""], []), Write(0, |text|),
              Alone(update, Writing(0, text, |text|), t, map[0 := text], []))
    ensures Leads(
              Alone(update, Writing(0, text, |text|), t, map[0 := text], []), Sync(0),
              Alone(update, Synced(0, text), t, map[0 := text], []))
  {
    assert text[..|text|] == text;
  }

  lemma AloneFails(update: Update, t: Option<string>, text: string)
    ensures Leads(
              Alone(update, Synced(0, text), t, map[0 := text], []), Rename(0),
              Alone(update, Renamed, Some(text), map[], [0]))
    ensures Leads(
              Alone(update, Renamed, Some(text), map[], [0]), Fail(0, true),
              Alone(update, Returned(false), Some(text), map[], [0]))
  {
    assert map[0 := text] - {0} == map[];
  }

  ghost predicate IsPath(states: seq<State>, events: seq<Event>) {
    |states| == |events| + 1 && forall i :: 0 <= i < |events| ==> Leads(states[i], events[i], states[i + 1])
  }

  lemma {:induction false} PathIsRun(states: seq<State>, events: seq<Event>)
    requires IsPath(states, events)
    ensures IsRun(states[0], events) && Final(states[0], events) == states[|events|]
    decreases |events|
  {
    hide Apply, Enabled;
    if events == [] {
    } else {
      assert Leads(states[0], events[0], states[1]);
      PathIsRun(states[1..], events[1..]);
    }
  }

  /** The steps of one call when something fails right after its rename. */
  function FailingCall(text: string, update: Update): seq<Event> {
    [Begin(0, update), TakeMutex(0), TakeFileLock(0), Read(0), Compute(0), CreateTemp(0, 0), Write(0, |text|), Sync(0),
     Rename(0), Fail(0, true)]
  }

  function FailingStates(text: string, update: Update, t: Option<string>): seq<State> {
    [Start(t), Alone(update, Waiting, t, map[], []), Alone(update, Locked, t, map[], []),
     Alone(update, Guarded, t, map[], []),
     Alone(update, HasRead(Content(t)), t, map[], []), Alone(update, Computed(text), t, map[], []),
     Alone(update, Writing(0, text, 0), t, map[0 := ""], []),
     Alone(update, Writing(0, text, |text|), t, map[0 := text], []),
     Alone(update, Synced(0, text), t, map[0 := text], []), Alone(update, Renamed, Some(text), map[], [0]),
     Alone(update, Returned(false), Some(text), map[], [0])]
  }

  lemma FailingPath(text: string, update: Update, t: Option<string>)
    requires update(Content(t)) == Ok(text)
    ensures IsPath(FailingStates(text, update, t), FailingCall(text, update))
  {
    AloneEnters(update, t);
    AloneWorks(update, t, text);
    AloneWrites(update, t, text);
    AloneFails(update, t, text);
    hide Leads, Alone, Start;
  }

  /**
    For example: a call whose update succeeds, and whose directory cannot be synced afterwards, returns an
    error with its text in place.
   */
  lemma FailureAfterRename(t: Option<string>, update: Update)
    requires update(Content(t)).Ok?
    ensures var text := update(Content(t)).value;
      && IsRun(Start(t), FailingCall(text, update))
      && Final(Start(t), FailingCall(text, update)) == Alone(update, Returned(false), Some(text), map[], [0])
  {
    var text := update(Content(t)).value;
    hide IsPath, Alone, IsRun, Final, Start;
    FailingPath(text, update, t);
    PathIsRun(FailingStates(text, update, t), FailingCall(text, update));
  }

  /** Only the death of a process, or a removal that fails, leaves an orphan. */
  lemma {:induction false} OrphansHaveCauses(s: State, events: seq<Event>)
    requires IsRun(s, events) && s.orphans == {}
    requires forall i :: 0 <= i < |events| ==>
      !events[i].Crash? && (events[i].Fail? || events[i].Panic? ==> events[i].removed)
    ensures Final(s, events).orphans == {}
    decreases |events|
  {
    if events == [] {
    } else {
      OrphansHaveCauses(Apply(s, events[0]), events[1..]);
    }
  }

  // ---------------------------------------------------------------------------------------
  // Panics.

  /** A panic under the mutex poisons it, and no step ever heals it. */
  lemma PanicPoisons(s: State, e: Event)
    requires Enabled(s, e)
    ensures s.poisoned <= Apply(s, e).poisoned
    ensures e.Panic? ==> s.calls[e.c].process in Apply(s, e).poisoned
  {}

  /** From then on a waiting call of that process can only be refused, or die with it. */
  lemma PoisonedCallsAreRefused(s: State, e: Event, c: nat)
    requires LocksHeld(s) && Enabled(s, e)
    requires c < |s.calls| && s.calls[c].phase.Waiting? && s.calls[c].process in s.poisoned
    ensures Apply(s, e).calls[c].phase in {Waiting, Returned(false), Crashed}
    ensures Apply(s, e).committed == s.committed || (Apply(s, e).committed == s.committed + [e.c] && e.c != c)
  {
    hide LocksHeld;
  }

  /** Whoever finds the mutex free is let in, or refused exactly if it is poisoned; nobody else is. */
  lemma MutexDecides(s: State, c: nat)
    requires c < |s.calls|
    ensures Enabled(s, TakeMutex(c)) <==>
      s.calls[c].phase.Waiting? && s.calls[c].process !in s.mutex && s.calls[c].process !in s.poisoned
    ensures Enabled(s, RefusePoisoned(c)) <==>
      s.calls[c].phase.Waiting? && s.calls[c].process !in s.mutex && s.calls[c].process in s.poisoned
  {}

  /** A call that has returned keeps its answer, whatever happens to its process. */
  lemma ReturnedStays(s: State, e: Event, c: nat)
    requires Enabled(s, e) && c < |s.calls| && s.calls[c].phase.Returned?
    ensures Apply(s, e).calls[c] == s.calls[c]
  {}

  // ---------------------------------------------------------------------------------------
  // One call, alone.

  /** Which system calls fail, and whether a pending file can be removed. */
  datatype Faults = Faults(
    lock: bool, read: bool, create: bool, write: bool, sync: bool, rename: bool,
    chmod: bool, syncDirectory: bool, unlock: bool, removable: bool)
  {
    predicate BeforeRename() { lock || read || create || write || sync || rename }

    predicate AfterRename() { chmod || syncDirectory || unlock }
  }

  class PrivateDirectory {
    var target: Option<string>
    var temps: map<nat, string>
    var locked: bool

    constructor (target: Option<string>)
      ensures this.target == target && temps == map[] && !locked
    {
      this.target, temps, locked := target, map[], false;
    }

    /** The body under the locks; `armed` tells whether a pending file must be dropped. */
    method Attempt(update: Update, temp: nat, faults: Faults) returns (r: Result<(), string>, armed: bool)
      requires temp !in temps
      modifies this`target, this`temps
      ensures var next := update(Content(old(target)));
        var renamed := !faults.BeforeRename() && next.Ok?;
        && target == (if renamed then Some(next.value) else old(target))
        && (r.Ok? <==> renamed && !faults.AfterRename())
        && armed == (!faults.lock && !faults.read && !faults.create && next.Ok? && !renamed)
        && temps - {temp} == old(temps) && (temp in temps <==> armed)
    {
      armed := false;
      if faults.lock { return Err("Could not lock private file"), false; }
      var existing := Content(target);
      if faults.read { return Err("Could not read private file"), false; }
      var next := update(existing);
      if next.Err? { return Err(next.error), false; }
      if faults.create { return Err("Could not create private temp file"), false; }
      temps := temps[temp := ""];
      armed := true;
      if faults.write { return Err("Could not write private temp file"), true; }
      temps := temps[temp := next.value];
      if faults.sync { return Err("Could not sync private temp file"), true; }
      if faults.rename { return Err("Could not atomically replace"), true; }
      target, temps := Some(temps[temp]), temps - {temp};
      armed := false;
      if faults.chmod || faults.syncDirectory || faults.unlock {
        return Err("Could not sync private file directory"), false;
      }
      return Ok(()), false;
    }

    /**
      A call changes the target to what the update makes of it or not at all, and leaves no lock and no
      removable file behind.
     */
    method UpdatePrivateTextFile(update: Update, temp: nat, faults: Faults) returns (r: Result<(), string>)
      requires !locked && temp !in temps
      modifies this
      ensures !locked
      ensures var next := update(if old(target).Some? then old(target).value else "");
        target == if !faults.BeforeRename() && next.Ok? then Some(next.value) else old(target)
      ensures r.Ok? <==> !faults.BeforeRename() && !faults.AfterRename()
                         && update(if old(target).Some? then old(target).value else "").Ok?
      ensures temps - {temp} == old(temps) && (r.Ok? || faults.removable ==> temps == old(temps))
    {
      locked := true;
      var armed;
      r, armed := Attempt(update, temp, faults);
      if armed && faults.removable {
        temps := temps - {temp};
      }
      locked := false;
    }
  }
}
