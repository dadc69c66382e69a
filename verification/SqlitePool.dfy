/**
  The SQLite connection pool (crates/patchhive-product-core/src/sqlite.rs): a counter shared by all
  callers, and an open that happens outside the lock.
 */
module SqlitePool {

  /** Callers and connections are numbered; a caller is away, opening, or holding one connection. */
  datatype Pool = Pool(
    max: nat, idle: seq<nat>, openConnections: nat, opening: set<nat>, held: map<nat, nat>, made: nat)

  datatype Event =
    | Get(caller: nat)             // the locked part of `get`
    | Opened(caller: nat)          // `open_connection` succeeded
    | OpenFailed(caller: nat)      // it failed, and the slot is given back under the lock
    | Drop(caller: nat)            // the guard is dropped

  datatype Outcome = Reused(conn: nat) | MustOpen | AtCapacity

  predicate Enabled(pool: Pool, e: Event) {
    match e
    case Get(c) => c !in pool.opening && c !in pool.held
    case Opened(c) => c in pool.opening
    case OpenFailed(c) => c in pool.opening
    case Drop(c) => c in pool.held
  }

  function GetOutcome(pool: Pool): Outcome {
    if pool.idle != [] then Reused(pool.idle[|pool.idle| - 1])
    else if pool.openConnections < pool.max then MustOpen
    else AtCapacity
  }

  function SaturatingDecrement(n: nat): nat { if n == 0 then 0 else n - 1 }

  function Apply(pool: Pool, e: Event): Pool
    requires Enabled(pool, e)
  {
    match e
    case Get(c) =>
      (match GetOutcome(pool)
       case Reused(conn) => pool.(idle := pool.idle[..|pool.idle| - 1], held := pool.held[c := conn])
       case MustOpen => pool.(openConnections := pool.openConnections + 1, opening := pool.opening + {c})
       case AtCapacity => pool)
    case Opened(c) => pool.(opening := pool.opening - {c}, held := pool.held[c := pool.made], made := pool.made + 1)
    case OpenFailed(c) =>
      pool.(opening := pool.opening - {c}, openConnections := SaturatingDecrement(pool.openConnections))
    case Drop(c) => pool.(idle := pool.idle + [pool.held[c]], held := pool.held - {c})
  }

  /** Every counted slot is idle, held or being opened, and there are never more than `max`. */
  ghost predicate SlotsAccounted(pool: Pool) {
    && pool.openConnections == |pool.idle| + |pool.held| + |pool.opening|
    && pool.openConnections <= pool.max
    && pool.opening !! pool.held.Keys
  }

  /** No connection is in two places. */
  ghost predicate ConnectionsUnique(pool: Pool) {
    && (forall i :: 0 <= i < |pool.idle| ==> pool.idle[i] < pool.made)
    && (forall c :: c in pool.held ==> pool.held[c] < pool.made && pool.held[c] !in pool.idle)
    && (forall i, j :: 0 <= i < j < |pool.idle| ==> pool.idle[i] != pool.idle[j])
    && (forall c, d :: c in pool.held && d in pool.held && c != d ==> pool.held[c] != pool.held[d])
  }

  ghost predicate Inv(pool: Pool) {
    SlotsAccounted(pool) && ConnectionsUnique(pool)
  }

  lemma MapSizes(m: map<nat, nat>, c: nat, conn: nat)
    ensures c !in m ==> |m[c := conn]| == |m| + 1
    ensures c in m ==> |m - {c}| == |m| - 1
  {
    if c in m {
      assert (m - {c}).Keys == m.Keys - {c};
    } else {
      assert m[c := conn].Keys == m.Keys + {c};
    }
  }

  lemma StepKeepsSlots(pool: Pool, e: Event)
    requires SlotsAccounted(pool) && Enabled(pool, e)
    ensures SlotsAccounted(Apply(pool, e))
  {
    MapSizes(pool.held, e.caller, pool.made);
    if e.Get? && GetOutcome(pool).Reused? {
      MapSizes(pool.held, e.caller, GetOutcome(pool).conn);
    }
  }

  lemma StepKeepsUnique(pool: Pool, e: Event)
    requires ConnectionsUnique(pool) && Enabled(pool, e)
    ensures ConnectionsUnique(Apply(pool, e))
  {
    var n := |pool.idle|;
    if e.Get? && n > 0 {
      assert forall i :: 0 <= i < n - 1 ==> pool.idle[..n - 1][i] == pool.idle[i];
      assert pool.idle[n - 1] in pool.idle;
    }
  }

  lemma StepKeepsInv(pool: Pool, e: Event)
    requires Inv(pool) && Enabled(pool, e)
    ensures Inv(Apply(pool, e))
  {
    hide SlotsAccounted, ConnectionsUnique, Apply, Enabled;
    StepKeepsSlots(pool, e);
    StepKeepsUnique(pool, e);
  }

  predicate IsRun(pool: Pool, events: seq<Event>)
    decreases |events|
  {
    events == [] || (Enabled(pool, events[0]) && IsRun(Apply(pool, events[0]), events[1..]))
  }

  function Final(pool: Pool, events: seq<Event>): Pool
    requires IsRun(pool, events)
    decreases |events|
  {
    if events == [] then pool else Final(Apply(pool, events[0]), events[1..])
  }

  /** Under every interleaving the slots add up and no connection is handed out twice. */
  lemma {:induction false} RunsKeepInv(pool: Pool, events: seq<Event>)
    requires Inv(pool) && IsRun(pool, events)
    ensures Inv(Final(pool, events)) && Final(pool, events).max == pool.max
    decreases |events|
  {
    if events == [] {
    } else {
      hide Inv;
      StepKeepsInv(pool, events[0]);
      RunsKeepInv(Apply(pool, events[0]), events[1..]);
    }
  }

  /** A caller is turned away exactly when every slot is held or being opened; giving a slot back never saturates. */
  lemma CapacityExactlyWhen(pool: Pool)
    requires Inv(pool)
    ensures GetOutcome(pool) == AtCapacity <==> |pool.held| + |pool.opening| == pool.max
    ensures pool.opening != {} ==> pool.openConnections > 0
    ensures pool.opening == {} && pool.held == map[] ==> pool.openConnections == |pool.idle|
  {
    if pool.opening != {} {
      assert |pool.opening| > 0;
    }
  }

  lemma TakenSlot(pool: Pool, caller: nat)
    requires Inv(pool) && Enabled(pool, Get(caller))
    ensures Inv(Apply(pool, Get(caller)))
    ensures GetOutcome(pool) == AtCapacity <==> |pool.held| + |pool.opening| == pool.max
  {
    hide Inv, Apply, GetOutcome;
    StepKeepsInv(pool, Get(caller));
    CapacityExactlyWhen(pool);
  }

  class SqlitePool {
    const maxConnections: nat
    var idle: seq<nat>
    var openConnections: nat
    ghost var opening: set<nat>
    ghost var held: map<nat, nat>
    ghost var made: nat

    ghost function Model(): Pool
      reads this
    {
      Pool(maxConnections, idle, openConnections, opening, held, made)
    }

    constructor (configured: nat)
      ensures maxConnections == (if configured < 1 then 1 else configured)
      ensures Model() == Pool(maxConnections, [], 0, {}, map[], 0) && Inv(Model())
    {
      maxConnections := if configured < 1 then 1 else configured;
      idle, openConnections := [], 0;
      opening, held, made := {}, map[], 0;
    }

    /** The part of `get` under the lock. */
    method TakeSlot(ghost caller: nat) returns (r: Outcome)
      requires Inv(Model()) && Enabled(Model(), Get(caller))
      modifies this
      ensures Inv(Model()) && Model() == Apply(old(Model()), Get(caller)) && r == GetOutcome(old(Model()))
      ensures r == AtCapacity <==> |old(held)| + |old(opening)| == maxConnections
    {
      ghost var before := Model();
      TakenSlot(before, caller);
      if idle != [] {
        r := Reused(idle[|idle| - 1]);
        idle := idle[..|idle| - 1];
        held := held[caller := r.conn];
      } else if openConnections < maxConnections {
        r := MustOpen;
        openConnections := openConnections + 1;
        opening := opening + {caller};
      } else {
        r := AtCapacity;
      }
      assert r == GetOutcome(before) && Model() == Apply(before, Get(caller));
      hide *;
    }

    /** The rest of `get` after an open: nothing to update on success, the slot to give back on failure. */
    method FinishOpen(ghost caller: nat, ok: bool)
      requires Inv(Model()) && caller in opening
      modifies this
      ensures Inv(Model())
      ensures Model() == Apply(old(Model()), if ok then Opened(caller) else OpenFailed(caller))
      ensures !ok ==> openConnections == old(openConnections) - 1
    {
      hide Inv;
      ghost var e := if ok then Opened(caller) else OpenFailed(caller);
      StepKeepsInv(Model(), e);
      CapacityExactlyWhen(Model());
      opening := opening - {caller};
      if ok {
        held, made := held[caller := made], made + 1;
      } else {
        openConnections := SaturatingDecrement(openConnections);
      }
    }

    /** `PooledSqliteConnection::drop`. */
    method Return(ghost caller: nat, conn: nat)
      requires Inv(Model()) && caller in held && held[caller] == conn
      modifies this
      ensures Inv(Model()) && Model() == Apply(old(Model()), Drop(caller))
    {
      hide Inv;
      StepKeepsInv(Model(), Drop(caller));
      idle := idle + [conn];
      held := held - {caller};
    }
  }
}
