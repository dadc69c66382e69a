/**
  The synchronisation of public opt-outs: HiveCore polls the registry's feed and applies it to the
  shared policy table (products/hive-core/backend/src/db.rs). Polls may be arbitrarily stale and
  arrive in any order, between any operator edits.
 */
module OptOutSync {
  import opened Wrappers
  import opened Text
  import opened Ordering
  import opened ScopePolicy
  import opened RepoPolicyTable
  import opened RepoPolicy
  import opened RepoPolicyStore
  import Registry = OptOutRegistry

  const AUTHORITY := "patchhive.dev"
  const FEED_SCHEMA := "patchhive.repository-opt-outs.v1"

  datatype FeedState = FeedActive | FeedRevoked | FeedUnknown

  datatype FeedItem = FeedItem(repository: string, reason: string, state: FeedState, updatedAt: Time)

  datatype Feed = Feed(schemaVersion: string, generatedAt: string, items: seq<FeedItem>)

  /** The row that tells how the last synchronisation went; the one a successful poll writes. */
  datatype SyncState = Succeeded(
    startedAt: string, completedAt: string, feedGeneratedAt: string, active: nat, revoked: nat)

  class SyncRecord {
    var last: Option<SyncState>

    constructor (last: Option<SyncState>)
      ensures this.last == last
    {
      this.last := last;
    }
  }

  function ItemOp(item: FeedItem): Op {
    if item.state == FeedActive then AssertVerified(item.repository, AUTHORITY, item.reason, item.updatedAt)
    else RevokeVerified(item.repository, AUTHORITY, item.updatedAt)
  }

  function ItemOps(items: seq<FeedItem>): (r: seq<Op>)
    ensures |r| == |items|
    ensures forall i :: 0 <= i < |items| ==> r[i] == ItemOp(items[i])
  {
    seq(|items|, i requires 0 <= i < |items| => ItemOp(items[i]))
  }

  /** The table after a feed has been applied. */
  ghost function FeedApplied(table: Table, items: seq<FeedItem>): Table {
    Run(table, ItemOps(items))
  }

  lemma FeedStart(table: Table, items: seq<FeedItem>)
    ensures FeedApplied(table, items[..0]) == table
  {}

  lemma FeedNext(table: Table, items: seq<FeedItem>, i: nat)
    requires i < |items|
    ensures FeedApplied(table, items[..i + 1]) == Apply(FeedApplied(table, items[..i]), ItemOp(items[i]))
  {
    hide Apply;
    assert ItemOps(items[..i + 1]) == ItemOps(items[..i]) + [ItemOp(items[i])];
    RunAppend(table, ItemOps(items[..i]), [ItemOp(items[i])]);
    var op := [ItemOp(items[i])];
    assert op[1..] == [];
  }

  predicate Acceptable(feed: Feed) {
    feed.schemaVersion == FEED_SCHEMA && forall i :: 0 <= i < |feed.items| ==> feed.items[i].state != FeedUnknown
  }

  predicate NamesAssertions(items: seq<FeedItem>) {
    forall i :: 0 <= i < |items| && items[i].state == FeedActive ==> NormalizeRepoName(items[i].repository).Some?
  }

  function CountState(items: seq<FeedItem>, state: FeedState): nat {
    if items == [] then 0
    else CountState(items[..|items| - 1], state) + if items[|items| - 1].state == state then 1 else 0
  }

  function SyncResult(feed: Feed, startedAt: string, completedAt: string): SyncState {
    Succeeded(
      startedAt, completedAt, feed.generatedAt,
      CountState(feed.items, FeedActive), CountState(feed.items, FeedRevoked))
  }

  method ApplyItem(store: RepoPolicyStore, item: FeedItem) returns (r: Result<(), string>)
    modifies store
    ensures r.Ok? <==> (item.state == FeedActive ==> NormalizeRepoName(item.repository).Some?)
    ensures store.rows == Apply(old(store.rows), ItemOp(item))
  {
    hide NormalizeRepoName, VerifiedAsserted, VerifiedRevoked;
    if item.state == FeedActive {
      var changed := store.UpsertVerifiedOptOut(item.repository, AUTHORITY, item.reason, item.updatedAt);
      if changed.Err? {
        return Err(changed.error);
      }
    } else {
      var _ := store.RevokeVerifiedOptOut(item.repository, AUTHORITY, item.updatedAt);
    }
    return Ok(());
  }

  /**
    All or nothing: an unacceptable feed, or one naming no repository in an assertion, leaves the table
    and the record alone.
   */
  method ApplyPublicOptOutFeed(
    store: RepoPolicyStore, record: SyncRecord, feed: Feed, startedAt: string, completedAt: string)
    returns (r: Result<SyncState, string>)
    modifies store, record
    ensures r.Ok? <==> (Acceptable(feed) && NamesAssertions(feed.items))
    ensures r.Ok? ==> store.rows == FeedApplied(old(store.rows), feed.items)
    ensures r.Ok? ==> r.value == SyncResult(feed, startedAt, completedAt) && record.last == Some(r.value)
    ensures r.Err? ==> store.rows == old(store.rows) && record.last == old(record.last)
  {
    hide NormalizeRepoName, Apply, ItemOp, FeedApplied;
    if !Acceptable(feed) {
      return Err("unsupported feed");
    }
    var before := store.rows;
    var items := feed.items;
    var active, revoked := 0, 0;
    FeedStart(before, items);
    for i := 0 to |items|
      invariant record.last == old(record.last)
      invariant store.rows == FeedApplied(before, items[..i])
      invariant active == CountState(items[..i], FeedActive) && revoked == CountState(items[..i], FeedRevoked)
      invariant forall j :: 0 <= j < i && items[j].state == FeedActive ==> NormalizeRepoName(items[j].repository).Some?
    {
      FeedNext(before, items, i);
      assert items[..i + 1][..i] == items[..i];
      var applied := ApplyItem(store, items[i]);
      if applied.Err? {
        store.rows := before;  // the transaction is rolled back
        return Err(applied.error);
      }
      if items[i].state == FeedActive {
        active := active + 1;
      } else {
        revoked := revoked + 1;
      }
    }
    assert items[..|items|] == items;
    var state := Succeeded(startedAt, completedAt, feed.generatedAt, active, revoked);
    record.last := Some(state);
    return Ok(state);
  }

  // ---------------------------------------------------------------------------------------
  // The feed a registry publishes.

  function PublishedItem(name: string, row: Registry.Assertion): FeedItem {
    FeedItem(name, row.reason, if row.lifecycle.Active? then FeedActive else FeedRevoked, row.updatedAt)
  }

  ghost function ItemsFor(registry: Registry.Registry, names: seq<string>): (items: seq<FeedItem>)
    requires forall i :: 0 <= i < |names| ==> names[i] in registry.rows
    ensures |items| == |names|
    ensures forall i :: 0 <= i < |items| ==> items[i] == PublishedItem(names[i], registry.rows[names[i]])
  {
    seq(|names|, i requires 0 <= i < |names| => PublishedItem(names[i], registry.rows[names[i]]))
  }

  lemma SortedElements(keys: set<string>)
    ensures var names := Sorted(keys);
      && (forall i :: 0 <= i < |names| ==> names[i] in keys)
      && (forall name :: name in keys ==> exists i :: 0 <= i < |names| && names[i] == name)
      && forall i, j :: 0 <= i < j < |names| ==> names[i] != names[j]
  {
    var names := Sorted(keys);
    assert forall i :: 0 <= i < |names| ==> names[i] in names;
    forall i, j | 0 <= i < j < |names|
      ensures names[i] != names[j]
    {
      assert Less(names[i], names[j]);
      LessIrreflexive(names[i]);
    }
  }

  /** The whole table, `ORDER BY repository`. */
  ghost function Published(registry: Registry.Registry): seq<FeedItem> {
    SortedElements(registry.rows.Keys);
    ItemsFor(registry, Sorted(registry.rows.Keys))
  }

  lemma PublishedItems(registry: Registry.Registry)
    ensures var items := Published(registry);
      && (forall i :: 0 <= i < |items| ==> items[i].repository in registry.rows)
      && (forall i :: 0 <= i < |items| ==>
            items[i] == PublishedItem(items[i].repository, registry.rows[items[i].repository]))
      && (forall name :: name in registry.rows ==> exists i :: 0 <= i < |items| && items[i].repository == name)
      && forall i, j :: 0 <= i < j < |items| ==> items[i].repository != items[j].repository
  {
    hide Sorted;
    SortedElements(registry.rows.Keys);
    var names, items := Sorted(registry.rows.Keys), Published(registry);
    forall name | name in registry.rows
      ensures exists i :: 0 <= i < |items| && items[i].repository == name
    {
      var i :| 0 <= i < |names| && names[i] == name;
      assert items[i].repository == name;
    }
  }

  // ---------------------------------------------------------------------------------------
  // Runs of polls and operator edits.

  /** `history` is the registry's whole history; a poll sees the registry after its first `seen` operations. */
  datatype Step = Poll(seen: nat) | Edit(op: Op)

  ghost predicate IsOperatorEdit(op: Op) {
    match op
    case Upsert(entry) => !entry.row.verified
    case InsertIfAbsent(entry) => !entry.row.verified
    case AssertVerified(_, _, _, _) => false
    case RevokeVerified(_, _, _) => false
    case _ => true
  }

  ghost predicate Possible(history: seq<Registry.Op>, step: Step) {
    match step
    case Poll(seen) => seen <= |history|
    case Edit(op) => IsOperatorEdit(op)
  }

  ghost function StepOps(history: seq<Registry.Op>, step: Step): seq<Op>
    requires Possible(history, step)
  {
    match step
    case Poll(seen) => ItemOps(Published(Registry.Run(Registry.EMPTY, history[..seen])))
    case Edit(op) => [op]
  }

  ghost predicate AllPossible(history: seq<Registry.Op>, steps: seq<Step>) {
    forall i :: 0 <= i < |steps| ==> Possible(history, steps[i])
  }

  ghost function StepsOps(history: seq<Registry.Op>, steps: seq<Step>): seq<Op>
    requires AllPossible(history, steps)
  {
    if steps == [] then [] else StepOps(history, steps[0]) + StepsOps(history, steps[1..])
  }

  /** The store, empty at first, after these steps. */
  ghost function Synced(history: seq<Registry.Op>, steps: seq<Step>): Table
    requires AllPossible(history, steps)
  {
    Run(map[], StepsOps(history, steps))
  }

  // ---------------------------------------------------------------------------------------
  // What one feed does to one repository.

  function Slot(table: Table, name: string): Option<Row> {
    var key := RowKey(name, OptOut);
    if key in table then Some(table[key]) else None
  }

  function SlotAfter(slot: Option<Row>, item: FeedItem): Option<Row> {
    if item.state == FeedActive then
      if slot.Some? && !AcceptsAssertion(slot.value, AUTHORITY, item.updatedAt) then slot
      else Some(Row(AUTHORITY, item.reason, true, item.updatedAt))
    else
      if slot.Some? && AcceptsRevocation(slot.value, AUTHORITY, item.updatedAt) then None else slot
  }

  lemma ItemSlot(table: Table, item: FeedItem, name: string)
    requires IsNormalized(item.repository)
    ensures Slot(Apply(table, ItemOp(item)), name)
      == if item.repository == name then SlotAfter(Slot(table, name), item) else Slot(table, name)
  {
    hide NormalizeRepoName;
  }

  /** One item per repository, named as stored. */
  ghost predicate OnePerRepository(items: seq<FeedItem>) {
    && (forall i :: 0 <= i < |items| ==> IsNormalized(items[i].repository))
    && forall i, j :: 0 <= i < j < |items| ==> items[i].repository != items[j].repository
  }

  lemma {:induction false} FeedSlotPrefix(table: Table, items: seq<FeedItem>, i: nat, upTo: nat)
    requires OnePerRepository(items) && i < |items| && upTo <= |items|
    ensures var name := items[i].repository;
      Slot(FeedApplied(table, items[..upTo]), name)
        == if i < upTo then SlotAfter(Slot(table, name), items[i]) else Slot(table, name)
    decreases upTo
  {
    hide NormalizeRepoName, Apply, Slot, SlotAfter, FeedApplied;
    if upTo == 0 {
      FeedStart(table, items);
    } else {
      FeedSlotPrefix(table, items, i, upTo - 1);
      FeedNext(table, items, upTo - 1);
      ItemSlot(FeedApplied(table, items[..upTo - 1]), items[upTo - 1], items[i].repository);
    }
  }

  lemma FeedSlot(table: Table, items: seq<FeedItem>, i: nat)
    requires OnePerRepository(items) && i < |items|
    ensures Slot(FeedApplied(table, items), items[i].repository)
      == SlotAfter(Slot(table, items[i].repository), items[i])
  {
    hide *;
    FeedSlotPrefix(table, items, i, |items|);
    assert items[..|items|] == items;
  }

  /** Whatever the table held, a repository the feed lists as active is excluded once the feed is applied. */
  lemma FeedBinds(table: Table, items: seq<FeedItem>, i: nat)
    requires OnePerRepository(items) && i < |items| && items[i].state == FeedActive
    ensures Excluded(FeedApplied(table, items), items[i].repository)
  {
    hide FeedApplied, Excluded, NormalizeRepoName;
    FeedSlot(table, items, i);
    ListedExclusionBinds(FeedApplied(table, items), items[i].repository);
  }

  // ---------------------------------------------------------------------------------------
  // What a registry's history bounds.

  ghost function After(history: seq<Registry.Op>, seen: nat): Registry.Registry
    requires seen <= |history|
  {
    Registry.Run(Registry.EMPTY, history[..seen])
  }

  lemma AfterNext(history: seq<Registry.Op>, seen: nat)
    requires seen < |history|
    ensures After(history, seen + 1) == Registry.Apply(After(history, seen), history[seen])
  {
    hide Registry.Apply;
    assert history[..seen + 1][..seen] == history[..seen];
  }

  ghost predicate Makes(op: Registry.Op, registry: Registry.Registry, name: string) {
    && name in registry.rows
    && NormalizeRepoName(op.repository) == Some(name)
    && op.now == registry.rows[name].updatedAt
    && op.Assert? == registry.rows[name].lifecycle.Active?
  }

  /** A row's state and time are those of some operation on it that has already happened. */
  ghost predicate MadeBy(history: seq<Registry.Op>, seen: nat, name: string, i: nat)
    requires seen <= |history|
  {
    i < seen && Makes(history[i], After(history, seen), name)
  }

  lemma NothingYet(history: seq<Registry.Op>, name: string)
    ensures name !in After(history, 0).rows
  {}

  lemma StillMadeBy(history: seq<Registry.Op>, seen: nat, name: string, i: nat)
    requires i < seen <= |history| && Makes(history[i], After(history, seen), name)
    ensures MadeBy(history, seen, name, i)
  {}

  lemma RowUntouched(history: seq<Registry.Op>, seen: nat, name: string, i: nat)
    requires 0 < seen <= |history| && MadeBy(history, seen - 1, name, i)
    requires name in After(history, seen).rows && After(history, seen).rows[name] == After(history, seen - 1).rows[name]
    ensures MadeBy(history, seen, name, i)
  {
    hide After;
  }

  lemma OpTouches(registry: Registry.Registry, op: Registry.Op, name: string)
    requires name in Registry.Apply(registry, op).rows
    ensures var after := Registry.Apply(registry, op);
      Makes(op, after, name) || (name in registry.rows && after.rows[name] == registry.rows[name])
  {
    hide NormalizeRepoName, Trim;
  }

  lemma {:induction false} RowMadeBy(history: seq<Registry.Op>, seen: nat, name: string) returns (i: nat)
    requires seen <= |history|
    requires name in After(history, seen).rows
    ensures MadeBy(history, seen, name, i)
    decreases seen
  {
    NothingYet(history, name);
    hide *;
    var op := history[seen - 1];
    AfterNext(history, seen - 1);
    OpTouches(After(history, seen - 1), op, name);
    if Makes(op, After(history, seen), name) {
      i := seen - 1;
      StillMadeBy(history, seen, name, i);
    } else {
      i := RowMadeBy(history, seen - 1, name);
      RowUntouched(history, seen, name, i);
    }
  }

  lemma MadeRowNormalized(history: seq<Registry.Op>, seen: nat, name: string, i: nat)
    requires seen <= |history| && MadeBy(history, seen, name, i)
    ensures IsNormalized(name)
  {
    hide NormalizeRepoName, After;
    NormalizeIdempotent(history[i].repository);
  }

  /** A repository the registry knows stays known. */
  lemma {:induction false} RowsStayKnown(history: seq<Registry.Op>, seen: nat, later: nat, name: string)
    requires seen <= later <= |history|
    requires name in After(history, seen).rows
    ensures name in After(history, later).rows
    decreases later
  {
    hide After, Registry.Apply;
    if seen == later {
    } else {
      RowsStayKnown(history, seen, later - 1, name);
      AfterNext(history, later - 1);
      Registry.StepKeepsRow(After(history, later - 1), history[later - 1], name);
    }
  }

  /**
    Operations on one repository commit in the order of their clock readings. The registry reads the
    clock before it waits for its connection, so this is not a matter of course.
   */
  ghost predicate CommitsInClockOrder(history: seq<Registry.Op>) {
    forall i, j :: 0 <= i < j < |history|
      && NormalizeRepoName(history[i].repository) == NormalizeRepoName(history[j].repository)
      ==> history[i].now <= history[j].now
  }

  /** With commits in clock order the times of a row only grow. */
  lemma {:induction false} RowTimesGrow(history: seq<Registry.Op>, seen: nat, later: nat, name: string)
    requires CommitsInClockOrder(history) && seen <= later <= |history|
    requires name in After(history, seen).rows
    ensures name in After(history, later).rows
    ensures After(history, seen).rows[name].updatedAt <= After(history, later).rows[name].updatedAt
    decreases later
  {
    hide NormalizeRepoName, After, Registry.Apply;
    if seen == later {
    } else {
      RowTimesGrow(history, seen, later - 1, name);
      var i := RowMadeBy(history, later - 1, name);
      AfterNext(history, later - 1);
      Registry.StepKeepsRow(After(history, later - 1), history[later - 1], name);
      OpTouches(After(history, later - 1), history[later - 1], name);
    }
  }

  lemma PublishedIsOnePerRepository(history: seq<Registry.Op>, seen: nat)
    requires seen <= |history|
    ensures OnePerRepository(Published(After(history, seen)))
  {
    hide After, Published, NormalizeRepoName;
    var items := Published(After(history, seen));
    PublishedItems(After(history, seen));
    forall i | 0 <= i < |items|
      ensures IsNormalized(items[i].repository)
    {
      var maker := RowMadeBy(history, seen, items[i].repository);
      MadeRowNormalized(history, seen, items[i].repository, maker);
    }
  }

  // ---------------------------------------------------------------------------------------
  // Convergence.

  /** Every verified opt-out came from the authority, and is no newer than what the registry now says. */
  ghost predicate Bounded(table: Table, registry: Registry.Registry) {
    forall name :: RowKey(name, OptOut) in table && table[RowKey(name, OptOut)].verified ==>
      && table[RowKey(name, OptOut)].source == AUTHORITY
      && name in registry.rows
      && table[RowKey(name, OptOut)].updatedAt <= registry.rows[name].updatedAt
  }

  ghost predicate BoundedOp(op: Op, registry: Registry.Registry) {
    match op
    case AssertVerified(repository, source, _, updatedAt) =>
      && source == AUTHORITY && IsNormalized(repository)
      && repository in registry.rows && updatedAt <= registry.rows[repository].updatedAt
    case RevokeVerified(_, _, _) => true
    case _ => IsOperatorEdit(op)
  }

  lemma StepKeepsBounded(table: Table, op: Op, registry: Registry.Registry)
    requires Bounded(table, registry) && BoundedOp(op, registry)
    ensures Bounded(Apply(table, op), registry)
  {
    hide NormalizeRepoName, ParseKind, LegacyClaims, MigrationKeys;
  }

  lemma {:induction false} RunKeepsBounded(table: Table, ops: seq<Op>, registry: Registry.Registry)
    requires Bounded(table, registry)
    requires forall op :: op in ops ==> BoundedOp(op, registry)
    ensures Bounded(Run(table, ops), registry)
    decreases |ops|
  {
    hide Bounded, BoundedOp, Apply;
    if ops == [] {
    } else {
      assert ops[0] in ops;
      StepKeepsBounded(table, ops[0], registry);
      RunKeepsBounded(Apply(table, ops[0]), ops[1..], registry);
    }
  }

  lemma PollOps(history: seq<Registry.Op>, seen: nat)
    requires seen <= |history|
    ensures StepOps(history, Poll(seen)) == ItemOps(Published(After(history, seen)))
  {}

  ghost predicate NotNewerThanLast(history: seq<Registry.Op>, seen: nat, name: string)
    requires seen <= |history|
  {
    var shown, last := After(history, seen).rows, After(history, |history|).rows;
    name in shown && shown[name].lifecycle.Active? ==> name in last && shown[name].updatedAt <= last[name].updatedAt
  }

  /** No assertion the feed has ever shown is newer than what the registry now says. */
  ghost predicate LastIsNewest(history: seq<Registry.Op>) {
    forall seen, name :: 0 <= seen <= |history| ==> NotNewerThanLast(history, seen, name)
  }

  lemma {:induction false} StepsAreBounded(history: seq<Registry.Op>, steps: seq<Step>)
    requires LastIsNewest(history) && AllPossible(history, steps)
    ensures forall op :: op in StepsOps(history, steps) ==> BoundedOp(op, After(history, |history|))
  {
    hide NormalizeRepoName, After, Published;
    if steps == [] {
    } else {
      StepsAreBounded(history, steps[1..]);
      match steps[0] {
        case Edit(op) =>
        case Poll(seen) =>
          assert StepOps(history, steps[0]) == ItemOps(Published(After(history, seen))) by { PollOps(history, seen); }
          PublishedIsOnePerRepository(history, seen);
          var items := Published(After(history, seen));
          PublishedItems(After(history, seen));
          forall i | 0 <= i < |items|
            ensures BoundedOp(ItemOp(items[i]), After(history, |history|))
          {
            assert NotNewerThanLast(history, seen, items[i].repository);
          }
      }
    }
  }

  /** The store and the registry agree on whether this repository has opted out, and since when. */
  ghost predicate ConvergedAt(table: Table, registry: Registry.Registry, name: string) {
    var slot := Slot(table, name);
    if name in registry.rows && registry.rows[name].lifecycle.Active?
    then slot == Some(Row(AUTHORITY, registry.rows[name].reason, true, registry.rows[name].updatedAt))
    else slot.Some? ==> !slot.value.verified
  }

  ghost predicate Converged(table: Table, registry: Registry.Registry) {
    forall name :: ConvergedAt(table, registry, name)
  }

  lemma BoundedSlot(table: Table, registry: Registry.Registry, name: string)
    requires Bounded(table, registry)
    ensures var slot := Slot(table, name);
      slot.Some? && slot.value.verified ==>
        name in registry.rows && slot.value.source == AUTHORITY && slot.value.updatedAt <= registry.rows[name].updatedAt
  {}

  /** An item not older than what its authority stored has its way. */
  lemma SlotConverges(slot: Option<Row>, item: FeedItem)
    requires slot.Some? && slot.value.verified ==>
      slot.value.source == AUTHORITY && slot.value.updatedAt <= item.updatedAt
    ensures item.state == FeedActive ==>
      SlotAfter(slot, item) == Some(Row(AUTHORITY, item.reason, true, item.updatedAt))
    ensures item.state != FeedActive && SlotAfter(slot, item).Some? ==> !SlotAfter(slot, item).value.verified
  {}

  lemma {:induction false} FeedOtherSlot(table: Table, items: seq<FeedItem>, name: string, upTo: nat)
    requires OnePerRepository(items) && upTo <= |items|
    requires forall i :: 0 <= i < |items| ==> items[i].repository != name
    ensures Slot(FeedApplied(table, items[..upTo]), name) == Slot(table, name)
    decreases upTo
  {
    hide NormalizeRepoName, Apply, Slot, FeedApplied;
    if upTo == 0 {
      FeedStart(table, items);
    } else {
      FeedOtherSlot(table, items, name, upTo - 1);
      FeedNext(table, items, upTo - 1);
      ItemSlot(FeedApplied(table, items[..upTo - 1]), items[upTo - 1], name);
    }
  }

  lemma PollConvergesAt(table: Table, history: seq<Registry.Op>, name: string)
    requires Bounded(table, After(history, |history|))
    ensures ConvergedAt(FeedApplied(table, Published(After(history, |history|))), After(history, |history|), name)
  {
    hide NormalizeRepoName, After, FeedApplied, Published, OnePerRepository, Slot, SlotAfter, Bounded;
    var registry := After(history, |history|);
    var items := Published(registry);
    PublishedIsOnePerRepository(history, |history|);
    PublishedItems(registry);
    BoundedSlot(table, registry, name);
    if name in registry.rows {
      var i :| 0 <= i < |items| && items[i].repository == name;
      FeedSlot(table, items, i);
      SlotConverges(Slot(table, name), items[i]);
    } else {
      FeedOtherSlot(table, items, name, |items|);
      assert items[..|items|] == items;
    }
  }

  lemma PollConverges(table: Table, history: seq<Registry.Op>)
    requires Bounded(table, After(history, |history|))
    ensures Converged(FeedApplied(table, Published(After(history, |history|))), After(history, |history|))
  {
    forall name {
      PollConvergesAt(table, history, name);
    }
  }

  /** After any operator edits and any polls, one up-to-date poll makes the store agree with the registry. */
  ghost predicate AlwaysConverges(history: seq<Registry.Op>) {
    var registry := After(history, |history|);
    forall steps :: AllPossible(history, steps) ==>
      Converged(FeedApplied(Synced(history, steps), Published(registry)), registry)
  }

  lemma StepsConverge(history: seq<Registry.Op>, steps: seq<Step>)
    requires LastIsNewest(history) && AllPossible(history, steps)
    ensures var registry := After(history, |history|);
      Converged(FeedApplied(Synced(history, steps), Published(registry)), registry)
  {
    assert Bounded(map[], After(history, |history|));
    hide Bounded, BoundedOp, Published, FeedApplied, Converged, After, LastIsNewest;
    StepsAreBounded(history, steps);
    RunKeepsBounded(map[], StepsOps(history, steps), After(history, |history|));
    PollConverges(Synced(history, steps), history);
  }

  lemma OneStep(history: seq<Registry.Op>, step: Step)
    requires Possible(history, step)
    ensures AllPossible(history, [step]) && StepsOps(history, [step]) == StepOps(history, step)
  {
    hide StepOps, Possible;
    assert [step][1..] == [];
    assert StepsOps(history, []) == [];
    assert StepOps(history, step) + [] == StepOps(history, step);
  }

  lemma OnePoll(history: seq<Registry.Op>, seen: nat)
    requires seen <= |history|
    ensures AllPossible(history, [Poll(seen)])
    ensures StepsOps(history, [Poll(seen)]) == ItemOps(Published(After(history, seen)))
  {
    hide StepOps, StepsOps, Published, After, ItemOps;
    PollOps(history, seen);
    OneStep(history, Poll(seen));
  }

  /** What one poll makes of the row of a repository its feed shows. */
  lemma PolledSlot(table: Table, history: seq<Registry.Op>, seen: nat, name: string)
    requires seen <= |history| && name in After(history, seen).rows
    ensures Slot(FeedApplied(table, Published(After(history, seen))), name)
      == SlotAfter(Slot(table, name), PublishedItem(name, After(history, seen).rows[name]))
  {
    hide After, FeedApplied, Published, OnePerRepository, Slot, SlotAfter;
    var items := Published(After(history, seen));
    PublishedIsOnePerRepository(history, seen);
    PublishedItems(After(history, seen));
    var i :| 0 <= i < |items| && items[i].repository == name;
    FeedSlot(table, items, i);
  }

  lemma AppliedIsRun(table: Table, items: seq<FeedItem>)
    ensures FeedApplied(table, items) == Run(table, ItemOps(items))
  {}

  /** A poll that showed an assertion newer than what the registry now says leaves a row no current poll corrects. */
  lemma NewerPollDiverges(history: seq<Registry.Op>, seen: nat, name: string)
    requires seen <= |history| && !NotNewerThanLast(history, seen, name)
    ensures AllPossible(history, [Poll(seen)])
    ensures var registry := After(history, |history|);
      !Converged(FeedApplied(Synced(history, [Poll(seen)]), Published(registry)), registry)
  {
    hide After, Published, FeedApplied, NormalizeRepoName, Run;
    var registry := After(history, |history|);
    RowsStayKnown(history, seen, |history|, name);
    OnePoll(history, seen);
    var polled := Synced(history, [Poll(seen)]);
    AppliedIsRun(map[], Published(After(history, seen)));
    assert polled == FeedApplied(map[], Published(After(history, seen)));
    PolledSlot(map[], history, seen, name);
    PolledSlot(polled, history, |history|, name);
    assert !ConvergedAt(FeedApplied(polled, Published(registry)), registry, name);
  }

  /**
    The store converges to the registry, whatever edits and stale, repeated or reordered polls came
    before, exactly when no assertion the feed has ever shown is newer than the registry's last word.
   */
  lemma SyncConvergesExactlyWhen(history: seq<Registry.Op>)
    ensures AlwaysConverges(history) <==> LastIsNewest(history)
  {
    hide After, Published, FeedApplied, Converged, Synced, NotNewerThanLast;
    if LastIsNewest(history) {
      forall steps | AllPossible(history, steps)
        ensures var registry := After(history, |history|);
          Converged(FeedApplied(Synced(history, steps), Published(registry)), registry)
      {
        StepsConverge(history, steps);
      }
    } else {
      var seen, name :| 0 <= seen <= |history| && !NotNewerThanLast(history, seen, name);
      NewerPollDiverges(history, seen, name);
    }
  }

  /** In particular when the operations on each repository commit in the order of their clock readings. */
  lemma SyncConverges(history: seq<Registry.Op>)
    requires CommitsInClockOrder(history)
    ensures AlwaysConverges(history)
  {
    hide CommitsInClockOrder, AlwaysConverges, After;
    forall seen, name | 0 <= seen <= |history|
      ensures NotNewerThanLast(history, seen, name)
    {
      if name in After(history, seen).rows {
        RowTimesGrow(history, seen, |history|, name);
      }
    }
    SyncConvergesExactlyWhen(history);
  }

  // ---------------------------------------------------------------------------------------
  // Stale polls.

  ghost predicate ShowsRevoked(history: seq<Registry.Op>, seen: nat, name: string, since: Time)
    requires seen <= |history|
  {
    var rows := After(history, seen).rows;
    name in rows && !rows[name].lifecycle.Active? && since <= rows[name].updatedAt
  }

  /** At no moment of its history does the registry show `name` revoked at `since` or later. */
  ghost predicate NeverShowsRevoked(history: seq<Registry.Op>, name: string, since: Time) {
    forall seen :: 0 <= seen <= |history| ==> !ShowsRevoked(history, seen, name, since)
  }

  lemma {:induction false} StepsCannotRevoke(history: seq<Registry.Op>, steps: seq<Step>, name: string, since: Time)
    requires NeverShowsRevoked(history, name, since) && AllPossible(history, steps)
    ensures forall op :: op in StepsOps(history, steps) ==> !MayRevoke(op, name, AUTHORITY, since)
  {
    hide NormalizeRepoName, After, Published;
    if steps == [] {
    } else {
      StepsCannotRevoke(history, steps[1..], name, since);
      match steps[0] {
        case Edit(op) =>
        case Poll(seen) =>
          assert StepOps(history, steps[0]) == ItemOps(Published(After(history, seen))) by { PollOps(history, seen); }
          var items := Published(After(history, seen));
          PublishedItems(After(history, seen));
          PublishedIsOnePerRepository(history, seen);
          assert !ShowsRevoked(history, seen, name, since);
          forall i | 0 <= i < |items|
            ensures !MayRevoke(ItemOp(items[i]), name, AUTHORITY, since)
          {
            assert IsNormalized(items[i].repository);
          }
      }
    }
  }

  /**
    A stored opt-out outlasts every operator edit and every poll, and keeps binding, when the registry
    never shows it revoked at its time or later.
   */
  lemma StalePollsKeepOptOut(
    history: seq<Registry.Op>, steps: seq<Step>, table: Table, name: string, since: Time)
    requires OptedOut(table, name, AUTHORITY, since)
    requires NeverShowsRevoked(history, name, since) && AllPossible(history, steps)
    ensures OptedOut(Run(table, StepsOps(history, steps)), name, AUTHORITY, since)
    ensures Excluded(Run(table, StepsOps(history, steps)), name)
  {
    hide NormalizeRepoName, MayRevoke, OptedOut, NeverShowsRevoked;
    StepsCannotRevoke(history, steps, name, since);
    var ops := StepsOps(history, steps);
    assert forall i :: 0 <= i < |ops| ==> ops[i] in ops;
    OptOutBindsRuns(table, ops, name, AUTHORITY, since);
  }

  /** One poll lifts a stored opt-out exactly when it sees a revocation not older than it. */
  lemma PollLiftsExactlyWhen(table: Table, history: seq<Registry.Op>, seen: nat, name: string, since: Time)
    requires seen <= |history|
    requires OptedOut(table, name, AUTHORITY, since) && table[RowKey(name, OptOut)].updatedAt == since
    ensures var rows := After(history, seen).rows;
      !OptedOut(FeedApplied(table, Published(After(history, seen))), name, AUTHORITY, since)
      <==> (name in rows && !rows[name].lifecycle.Active? && since <= rows[name].updatedAt)
  {
    hide NormalizeRepoName, After, FeedApplied, Published, OnePerRepository;
    var registry := After(history, seen);
    var items := Published(registry);
    PublishedIsOnePerRepository(history, seen);
    PublishedItems(registry);
    if name in registry.rows {
      var i :| 0 <= i < |items| && items[i].repository == name;
      FeedSlot(table, items, i);
    } else {
      FeedOtherSlot(table, items, name, |items|);
      assert items[..|items|] == items;
    }
  }

  ghost predicate StaysOptedOut(history: seq<Registry.Op>, table: Table, name: string, since: Time) {
    forall steps :: AllPossible(history, steps) ==>
      OptedOut(Run(table, StepsOps(history, steps)), name, AUTHORITY, since)
  }

  /** And only then: otherwise a single poll of such a moment lifts it. */
  lemma StaysOptedOutExactlyWhen(history: seq<Registry.Op>, table: Table, name: string, since: Time)
    requires OptedOut(table, name, AUTHORITY, since) && table[RowKey(name, OptOut)].updatedAt == since
    ensures StaysOptedOut(history, table, name, since) <==> NeverShowsRevoked(history, name, since)
  {
    hide OptedOut, After, Published, Run, Excluded;
    if NeverShowsRevoked(history, name, since) {
      forall steps | AllPossible(history, steps)
        ensures OptedOut(Run(table, StepsOps(history, steps)), name, AUTHORITY, since)
      {
        StalePollsKeepOptOut(history, steps, table, name, since);
      }
    } else {
      var seen :| 0 <= seen <= |history| && ShowsRevoked(history, seen, name, since);
      PollLiftsExactlyWhen(table, history, seen, name, since);
      OnePoll(history, seen);
      AppliedIsRun(table, Published(After(history, seen)));
      assert !OptedOut(Run(table, StepsOps(history, [Poll(seen)])), name, AUTHORITY, since);
    }
  }

  // ---------------------------------------------------------------------------------------
  // Races between an opt-out and its revocation.

  lemma AssertedRow(registry: Registry.Registry, name: string, actor: string, t: Time)
    requires IsNormalized(name) && Trim(actor) != ""
    ensures var after := Registry.Apply(registry, Registry.Assert(name, actor, "", t));
      name in after.rows && after.rows[name].lifecycle == Registry.Active(t) && after.rows[name].updatedAt == t
  {
    hide NormalizeRepoName, Trim;
  }

  lemma RevokedRow(registry: Registry.Registry, name: string, actor: string, t: Time)
    requires IsNormalized(name) && name in registry.rows
    ensures var after := Registry.Apply(registry, Registry.Revoke(name, actor, t));
      && name in after.rows && after.rows[name].lifecycle == Registry.Lifecycle.Revoked(t)
      && after.rows[name].updatedAt == t
  {
    hide NormalizeRepoName;
  }

  /** A revocation that read the clock at `early`, and committed after an assertion that read it at `late`. */
  function LateRevocation(name: string, actor: string, early: Time, late: Time): seq<Registry.Op> {
    [Registry.Assert(name, actor, "", late), Registry.Revoke(name, actor, early)]
  }

  lemma LateRevocationRows(name: string, actor: string, early: Time, late: Time)
    requires IsNormalized(name) && Trim(actor) != ""
    ensures var history := LateRevocation(name, actor, early, late);
      && name !in After(history, 0).rows && name in After(history, 1).rows && name in After(history, 2).rows
      && After(history, 1).rows[name].lifecycle == Registry.Active(late)
      && After(history, 1).rows[name].updatedAt == late
      && After(history, 2).rows[name].lifecycle == Registry.Lifecycle.Revoked(early)
      && After(history, 2).rows[name].updatedAt == early
  {
    hide NormalizeRepoName, Trim, After, Registry.Apply;
    var history := LateRevocation(name, actor, early, late);
    NothingYet(history, name);
    AfterNext(history, 0);
    AssertedRow(After(history, 0), name, actor, late);
    AfterNext(history, 1);
    RevokedRow(After(history, 1), name, actor, early);
  }

  lemma LateRevocationLength(name: string, actor: string, early: Time, late: Time)
    ensures |LateRevocation(name, actor, early, late)| == 2
  {}

  /**
    Such a revocation never reaches a store that has seen the assertion: the registry says revoked, and
    no poll, however current, nor any operator edit lifts the opt-out.
   */
  lemma LateRevocationNeverArrives(name: string, actor: string, early: Time, late: Time, steps: seq<Step>)
    requires IsNormalized(name) && Trim(actor) != "" && early < late
    requires AllPossible(LateRevocation(name, actor, early, late), steps)
    ensures var history := LateRevocation(name, actor, early, late);
      var polled := FeedApplied(map[], Published(After(history, 1)));
      && name in After(history, 2).rows && !After(history, 2).rows[name].lifecycle.Active?
      && OptedOut(Run(polled, StepsOps(history, steps)), name, AUTHORITY, late)
      && !AlwaysConverges(history)
  {
    hide NormalizeRepoName, Trim, Published, FeedApplied, After, AlwaysConverges, LateRevocation, Run;
    var history := LateRevocation(name, actor, early, late);
    LateRevocationRows(name, actor, early, late);
    LateRevocationLength(name, actor, early, late);
    PolledSlot(map[], history, 1, name);
    assert NeverShowsRevoked(history, name, late);
    StalePollsKeepOptOut(history, steps, FeedApplied(map[], Published(After(history, 1))), name, late);
    assert !NotNewerThanLast(history, 1, name);
    SyncConvergesExactlyWhen(history);
  }

  /** An opt-out, its revocation and its renewal, in the order they commit. */
  function Renewal(name: string, actor: string, asserted: Time, revoked: Time, renewed: Time): seq<Registry.Op> {
    [Registry.Assert(name, actor, "", asserted), Registry.Revoke(name, actor, revoked),
     Registry.Assert(name, actor, "", renewed)]
  }

  lemma RenewalRows(name: string, actor: string, asserted: Time, revoked: Time, renewed: Time)
    requires IsNormalized(name) && Trim(actor) != ""
    ensures var history := Renewal(name, actor, asserted, revoked, renewed);
      && name in After(history, 2).rows && name in After(history, 3).rows
      && After(history, 2).rows[name].lifecycle == Registry.Lifecycle.Revoked(revoked)
      && After(history, 2).rows[name].updatedAt == revoked
      && After(history, 3).rows[name].lifecycle == Registry.Active(renewed)
      && After(history, 3).rows[name].updatedAt == renewed
  {
    hide NormalizeRepoName, Trim, After, Registry.Apply;
    var history := Renewal(name, actor, asserted, revoked, renewed);
    AfterNext(history, 0);
    AssertedRow(After(history, 0), name, actor, asserted);
    AfterNext(history, 1);
    RevokedRow(After(history, 1), name, actor, revoked);
    AfterNext(history, 2);
    AssertedRow(After(history, 2), name, actor, renewed);
  }

  /** A stored renewal is lifted by a stale poll of the revocation exactly when its time is not later. */
  lemma RenewalLiftedExactlyWhen(name: string, actor: string, asserted: Time, revoked: Time, renewed: Time)
    requires IsNormalized(name) && Trim(actor) != ""
    ensures var history := Renewal(name, actor, asserted, revoked, renewed);
      var current := FeedApplied(map[], Published(After(history, 3)));
      && OptedOut(current, name, AUTHORITY, renewed)
      && (!OptedOut(FeedApplied(current, Published(After(history, 2))), name, AUTHORITY, renewed)
        <==> renewed <= revoked)
  {
    hide NormalizeRepoName, Trim, Published, FeedApplied, After;
    var history := Renewal(name, actor, asserted, revoked, renewed);
    RenewalRows(name, actor, asserted, revoked, renewed);
    PolledSlot(map[], history, 3, name);
    PollLiftsExactlyWhen(FeedApplied(map[], Published(After(history, 3))), history, 2, name, renewed);
  }

  /** So an opt-out renewed in the same instant as its revocation is open to a stale poll. */
  lemma SharedTimestampLiftsOptOut(name: string, actor: string, t: Time)
    requires IsNormalized(name) && Trim(actor) != ""
    ensures var history := Renewal(name, actor, t, t, t);
      var current := FeedApplied(map[], Published(After(history, 3)));
      && OptedOut(current, name, AUTHORITY, t)
      && !OptedOut(FeedApplied(current, Published(After(history, 2))), name, AUTHORITY, t)
  {
    hide *;
    RenewalLiftedExactlyWhen(name, actor, t, t, t);
  }

  // ---------------------------------------------------------------------------------------
  // In terms of the feed alone.

  /** A feed is taken exactly in its one version, with every state known and every assertion naming a repository. */
  lemma FeedTakenExactlyWhen(feed: Feed)
    ensures Acceptable(feed) && NamesAssertions(feed.items) <==>
      && feed.schemaVersion == "patchhive.repository-opt-outs.v1"
      && forall item :: item in feed.items ==>
           item.state != FeedUnknown && (item.state == FeedActive ==> NormalizeRepoName(item.repository).Some?)
  {
    hide NormalizeRepoName;
    var items := feed.items;
    assert forall i :: 0 <= i < |items| ==> items[i] in items;
  }

  predicate IsIn(item: FeedItem, state: FeedState) { item.state == state }

  ghost function InState(items: seq<FeedItem>, state: FeedState): set<nat> {
    set i | 0 <= i < |items| && IsIn(items[i], state)
  }

  lemma InStateNext(items: seq<FeedItem>, state: FeedState)
    requires items != []
    ensures var n := |items| - 1;
      |InState(items, state)| == |InState(items[..n], state)| + if IsIn(items[n], state) then 1 else 0
  {
    hide IsIn;
    var n := |items| - 1;
    var before, after := InState(items[..n], state), InState(items, state);
    assert after == if IsIn(items[n], state) then before + {n} else before;
  }

  lemma {:induction false} CountIsSize(items: seq<FeedItem>, state: FeedState)
    ensures CountState(items, state) == |InState(items, state)|
  {
    if items == [] {
      assert InState(items, state) == {};
    } else {
      CountIsSize(items[..|items| - 1], state);
      hide InState;
      InStateNext(items, state);
    }
  }

  /** The outcome recorded counts the assertions as active and the revocations as revoked. */
  lemma RecordedCounts(feed: Feed, startedAt: string, completedAt: string)
    ensures var state := SyncResult(feed, startedAt, completedAt);
      && state.active == |InState(feed.items, FeedActive)| && state.revoked == |InState(feed.items, FeedRevoked)|
      && state.startedAt == startedAt && state.completedAt == completedAt && state.feedGeneratedAt == feed.generatedAt
  {
    CountIsSize(feed.items, FeedActive);
    CountIsSize(feed.items, FeedRevoked);
    hide CountState, InState;
  }

  /** On a repository without an opt-out an active item is stored as the public authority's,
    and a revoked one does nothing. */
  lemma FreshItem(table: Table, item: FeedItem, name: string)
    requires NormalizeRepoName(item.repository) == Some(name) && RowKey(name, OptOut) !in table
    ensures Apply(table, ItemOp(item))
      == if item.state == FeedActive
         then table[RowKey(name, OptOut) := Row("patchhive.dev", item.reason, true, item.updatedAt)] else table
  {
    hide NormalizeRepoName;
  }

  /** The registry publishes each of its rows once, as active or as revoked, and HiveCore takes every such feed. */
  lemma PublishedFeedIsTaken(history: seq<Registry.Op>, seen: nat, generatedAt: string)
    requires seen <= |history|
    ensures var rows, items := After(history, seen).rows, Published(After(history, seen));
      && (forall item :: item in items <==>
            && item.repository in rows && item.reason == rows[item.repository].reason
            && item.updatedAt == rows[item.repository].updatedAt
            && item.state == if rows[item.repository].lifecycle.Active? then FeedActive else FeedRevoked)
      && Acceptable(Feed(FEED_SCHEMA, generatedAt, items)) && NamesAssertions(items)
  {
    PublishedItems(After(history, seen));
    PublishedIsOnePerRepository(history, seen);
    hide After, Published, NormalizeRepoName;
    FeedTakenExactlyWhen(Feed(FEED_SCHEMA, generatedAt, Published(After(history, seen))));
  }
}
