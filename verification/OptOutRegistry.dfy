/**
  The public opt-out registry: a table of assertions and the log of events behind it (services/patchhive-
  registry/src/db.rs).
 */
module OptOutRegistry {
  import opened Wrappers
  import opened Text
  import opened ScopePolicy
  import Pool = SqlitePool

  type Time = nat

  datatype Lifecycle = Active(assertedAt: Time) | Revoked(revokedAt: Time)

  datatype Assertion = Assertion(actor: string, reason: string, lifecycle: Lifecycle, verifiedAt: Time, updatedAt: Time)

  datatype Event = Event(repository: string, actor: string, lifecycle: Lifecycle, createdAt: Time)

  datatype Registry = Registry(rows: map<string, Assertion>, events: seq<Event>)

  const EMPTY := Registry(map[], [])

  datatype Op =
    | Assert(repository: string, actor: string, reason: string, now: Time)
    | Revoke(repository: string, actor: string, now: Time)

  function Apply(registry: Registry, op: Op): Registry {
    match NormalizeRepoName(op.repository)
    case None => registry
    case Some(name) =>
      match op
      case Assert(_, actor, reason, now) =>
        if Trim(actor) == "" then registry
        else Registry(
          registry.rows[name := Assertion(Trim(actor), Trim(reason), Active(now), now, now)],
          registry.events + [Event(name, Trim(actor), Active(now), now)])
      case Revoke(_, actor, now) =>
        if name !in registry.rows then registry
        else Registry(
          registry.rows[name := registry.rows[name].(
            actor := actor, lifecycle := Lifecycle.Revoked(now), updatedAt := now)],
          registry.events + [Event(name, actor, Lifecycle.Revoked(now), now)])
  }

  function Run(registry: Registry, ops: seq<Op>): Registry
    decreases |ops|
  {
    if ops == [] then registry else Apply(Run(registry, ops[..|ops| - 1]), ops[|ops| - 1])
  }

  class RegistryStore {
    var registry: Registry

    constructor ()
      ensures registry == EMPTY
    {
      registry := EMPTY;
    }

    /** `stored` tells whether a connection was free and the transaction committed. */
    method AssertRepositoryOptOut(repository: string, actor: string, reason: string, now: Time, stored: bool)
      returns (r: Result<Assertion, string>)
      modifies this
      ensures registry == if stored then Apply(old(registry), Assert(repository, actor, reason, now)) else old(registry)
      ensures r.Ok? <==> NormalizeRepoName(repository).Some? && Trim(actor) != "" && stored
      ensures r.Ok? ==> registry.rows[NormalizeRepoName(repository).value] == r.value
    {
      hide NormalizeRepoName, Trim;
      match NormalizeRepoName(repository) {
        case None => return Err("repository must be a GitHub owner/repository name");
        case Some(name) =>
          if Trim(actor) == "" {
            return Err("verified GitHub actor login must not be empty");
          }
          if !stored {
            return Err("could not store the assertion");
          }
          var assertion := Assertion(Trim(actor), Trim(reason), Active(now), now, now);
          registry := registry.(rows := registry.rows[name := assertion]);
          registry := registry.(events := registry.events + [Event(name, Trim(actor), Active(now), now)]);
          return Ok(assertion);
      }
    }

    /**
      The row is read back over a second connection after the commit, so an error does not say that
      nothing was revoked: `readBack` tells whether that connection was free.
     */
    method RevokeRepositoryOptOut(repository: string, actor: string, now: Time, stored: bool, readBack: bool)
      returns (r: Result<Option<Assertion>, string>)
      modifies this
      ensures registry == if stored then Apply(old(registry), Revoke(repository, actor, now)) else old(registry)
      ensures r.Ok? <==> NormalizeRepoName(repository).Some? && stored
                         && (NormalizeRepoName(repository).value in old(registry).rows ==> readBack)
      ensures r.Ok? ==> var name := NormalizeRepoName(repository).value;
        r.value == if name in old(registry).rows then Some(registry.rows[name]) else None
    {
      hide NormalizeRepoName;
      match NormalizeRepoName(repository) {
        case None => return Err("repository must be a GitHub owner/repository name");
        case Some(name) =>
          if !stored {
            return Err("could not store the revocation");
          }
          if name !in registry.rows {
            return Ok(None);
          }
          var lifecycle := Lifecycle.Revoked(now);
          var assertion := registry.rows[name].(actor := actor, lifecycle := lifecycle, updatedAt := now);
          registry := registry.(rows := registry.rows[name := assertion]);
          registry := registry.(events := registry.events + [Event(name, actor, lifecycle, now)]);
          if !readBack {
            return Err("could not read the revocation back");
          }
          return Ok(Some(assertion));
      }
    }
  }

  /**
    While a revocation holds its connection, the second one is refused exactly when all the others are
    taken; with a pool of one connection that is always so, and every revocation commits and then fails.
   */
  lemma ReadBackRefusedExactlyWhen(pool: Pool.Pool, revoker: nat)
    requires Pool.Inv(pool) && revoker in pool.held
    ensures Pool.GetOutcome(pool) == Pool.AtCapacity
      <==> |pool.held - {revoker}| + |pool.opening| == pool.max - 1
    ensures pool.max == 1 ==> Pool.GetOutcome(pool) == Pool.AtCapacity
  {
    Pool.CapacityExactlyWhen(pool);
    Pool.MapSizes(pool.held, revoker, 0);
  }

  // ---------------------------------------------------------------------------------------
  // The table is the replay of the log.

  /** What the log alone says about a repository; it does not record the reason given. */
  datatype LogState = LogState(actor: string, lifecycle: Lifecycle, verifiedAt: Time, updatedAt: Time)

  function Replay(events: seq<Event>, name: string): Option<LogState> {
    if events == [] then None
    else
      var last := events[|events| - 1];
      var before := Replay(events[..|events| - 1], name);
      if last.repository != name then before
      else
        match last.lifecycle
        case Active(_) => Some(LogState(last.actor, last.lifecycle, last.createdAt, last.createdAt))
        case Revoked(_) =>
          match before
          case None => None
          case Some(state) =>
            Some(state.(actor := last.actor, lifecycle := last.lifecycle, updatedAt := last.createdAt))
  }

  function Logged(registry: Registry, name: string): Option<LogState> {
    if name in registry.rows then
      var row := registry.rows[name];
      Some(LogState(row.actor, row.lifecycle, row.verifiedAt, row.updatedAt))
    else None
  }

  /** The events about one repository. */
  function About(events: seq<Event>, name: string): (r: seq<Event>)
    ensures forall e :: e in r <==> e in events && e.repository == name
  {
    if events == [] then []
    else
      var last := events[|events| - 1];
      assert forall e :: e in events <==> e in events[..|events| - 1] || e == last;
      About(events[..|events| - 1], name) + if last.repository == name then [last] else []
  }

  /** The row, where there is one, is what replaying the log gives. */
  ghost predicate IsReplay(registry: Registry, name: string) {
    Logged(registry, name) == Replay(registry.events, name)
  }

  predicate MadeRow(event: Event, row: Assertion) {
    row.actor == event.actor && row.lifecycle == event.lifecycle && row.updatedAt == event.createdAt
  }

  /** There is a row exactly when there is an event; the first event asserts, and the last one made the row. */
  ghost predicate IsLastEvent(registry: Registry, name: string) {
    var own := About(registry.events, name);
    && (name in registry.rows <==> own != [])
    && (own != [] ==>
          && own[0].lifecycle.Active?
          && MadeRow(own[|own| - 1], registry.rows[name]))
  }

  lemma StepKeepsReplay(registry: Registry, op: Op, name: string)
    requires IsReplay(registry, name)
    ensures IsReplay(Apply(registry, op), name)
  {
    hide NormalizeRepoName, Trim;
    var after := Apply(registry, op);
    if after != registry {
      assert after.events[..|after.events| - 1] == registry.events;
    }
  }

  lemma AboutAppend(events: seq<Event>, event: Event, name: string)
    ensures About(events + [event], name) == About(events, name) + if event.repository == name then [event] else []
  {
    assert (events + [event])[..|events|] == events;
  }

  lemma StepKeepsLastEvent(registry: Registry, op: Op, name: string)
    requires IsLastEvent(registry, name)
    ensures IsLastEvent(Apply(registry, op), name)
  {
    hide NormalizeRepoName, Trim, About;
    var after := Apply(registry, op);
    if after != registry {
      AboutAppend(registry.events, after.events[|registry.events|], name);
    }
  }

  lemma StepKeepsRow(registry: Registry, op: Op, name: string)
    requires name in registry.rows
    ensures name in Apply(registry, op).rows
  {
    hide NormalizeRepoName, Trim;
  }

  /** In every run the table is the replay of the event log. */
  lemma {:induction false} TableIsReplay(ops: seq<Op>, name: string)
    ensures IsReplay(Run(EMPTY, ops), name)
    ensures IsLastEvent(Run(EMPTY, ops), name)
  {
    if ops == [] {
    } else {
      hide IsReplay, IsLastEvent, Apply;
      var init := ops[..|ops| - 1];
      TableIsReplay(init, name);
      StepKeepsReplay(Run(EMPTY, init), ops[|ops| - 1], name);
      StepKeepsLastEvent(Run(EMPTY, init), ops[|ops| - 1], name);
    }
  }

  /** In every run a row, once there, stays. */
  lemma {:induction false} RowsStay(ops: seq<Op>, k: nat, name: string)
    requires k <= |ops| && name in Run(EMPTY, ops[..k]).rows
    ensures name in Run(EMPTY, ops).rows
  {
    hide Apply;
    if k == |ops| {
      assert ops[..k] == ops;
    } else {
      var init := ops[..|ops| - 1];
      assert init[..k] == ops[..k];
      RowsStay(init, k, name);
      StepKeepsRow(Run(EMPTY, init), ops[|ops| - 1], name);
    }
  }
}
