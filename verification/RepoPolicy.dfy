/** What the shared policy store promises over every run (crates/patchhive-product-core/src/repo_policy.rs). */
module RepoPolicy {
  import opened Wrappers
  import opened Text
  import opened ScopePolicy
  import opened RepoPolicyTable

  // ---------------------------------------------------------------------------------------
  // Evaluation.

  datatype ChainStep =
    | NameInvalid
    | OptOutExcluded | OptOutNone
    | DenylistExcluded | DenylistNotListed
    | AllowlistNotListed | AllowlistListed | AllowlistNotConfigured
    | TrustMissing(operation: string) | TrustSatisfied | TrustNone

  datatype Decision = Decision(
    repository: string, product: string, operation: string, allowed: bool, trusted: bool, chain: seq<ChainStep>)

  function EntriesFor(table: Table, repository: string): set<PolicyKind> {
    match NormalizeRepoName(repository)
    case None => {}
    case Some(name) => set kind | kind in {OptOut, Denylist, Allowlist, Trusted} && RowKey(name, kind) in table
  }

  predicate AllowlistIsConfigured(table: Table) {
    exists key :: key in table && key.kind == Allowlist
  }

  predicate OperationRequiresTrust(operation: string) {
    Lower(Trim(operation)) in {"execute_repository_tests", "execute_host_tests", "broader_sandbox"}
  }

  function Evaluate(table: Table, repository: string, product: string, operation: string): Decision {
    var product, operation := Trim(product), Trim(operation);
    match NormalizeRepoName(repository)
    case None => Decision(repository, product, operation, false, false, [NameInvalid])
    case Some(name) =>
      var kinds := EntriesFor(table, name);
      var trusted := Trusted in kinds;
      if OptOut in kinds then
        Decision(name, product, operation, false, false, [OptOutExcluded])
      else if Denylist in kinds then
        Decision(name, product, operation, false, trusted, [OptOutNone, DenylistExcluded])
      else if AllowlistIsConfigured(table) && Allowlist !in kinds then
        Decision(name, product, operation, false, trusted, [OptOutNone, DenylistNotListed, AllowlistNotListed])
      else
        var chain := [OptOutNone, DenylistNotListed,
                      if AllowlistIsConfigured(table) then AllowlistListed else AllowlistNotConfigured];
        if OperationRequiresTrust(operation) && !trusted then
          Decision(name, product, operation, false, trusted, chain + [TrustMissing(operation)])
        else
          Decision(name, product, operation, true, trusted, chain + [if trusted then TrustSatisfied else TrustNone])
  }

  /** No product may do anything to this repository, however its name is spelled. */
  ghost predicate Excluded(table: Table, name: string) {
    forall repository, product, operation :: NormalizeRepoName(repository) == Some(name)
      ==> !Evaluate(table, repository, product, operation).allowed
  }

  /** A stored opt-out or denial excludes the repository from every product and operation. */
  lemma ListedExclusionBinds(table: Table, name: string)
    requires RowKey(name, OptOut) in table || RowKey(name, Denylist) in table
    ensures Excluded(table, name)
  {
    hide NormalizeRepoName;
    hide OperationRequiresTrust;
    hide Trim;
    forall repository, product, operation | NormalizeRepoName(repository) == Some(name)
      ensures !Evaluate(table, repository, product, operation).allowed
    {
      NormalizeIdempotent(repository);
    }
  }

  /** The decisions on a list of repositories. */
  function Decisions(
    table: Table, repositories: seq<string>, product: string, operation: string): (decisions: seq<Decision>)
    ensures |decisions| == |repositories|
    ensures forall i :: 0 <= i < |decisions| ==> decisions[i] == Evaluate(table, repositories[i], product, operation)
  {
    seq(|repositories|, i requires 0 <= i < |repositories| => Evaluate(table, repositories[i], product, operation))
  }

  /** The names of the allowed ones, in order. */
  function Eligible(decisions: seq<Decision>): seq<string> {
    if decisions == [] then []
    else
      var last := decisions[|decisions| - 1];
      Eligible(decisions[..|decisions| - 1]) + if last.allowed then [last.repository] else []
  }

  /** The others, in order. */
  function Refused(decisions: seq<Decision>): seq<Decision> {
    if decisions == [] then []
    else
      var last := decisions[|decisions| - 1];
      Refused(decisions[..|decisions| - 1]) + if last.allowed then [] else [last]
  }

  lemma AllowedIsNotListed(table: Table, repository: string, product: string, operation: string)
    ensures var decision := Evaluate(table, repository, product, operation);
      decision.allowed ==>
        RowKey(decision.repository, OptOut) !in table && RowKey(decision.repository, Denylist) !in table
  {
    hide NormalizeRepoName, Trim, OperationRequiresTrust, AllowlistIsConfigured;
    if NormalizeRepoName(repository).Some? {
      NormalizeIdempotent(repository);
    }
  }

  ghost predicate Increasing(positions: seq<nat>) {
    forall i, j :: 0 <= i < j < |positions| ==> positions[i] < positions[j]
  }

  /** Every position below `n` is in exactly one of the two. */
  ghost predicate Partition(a: seq<nat>, b: seq<nat>, n: nat) {
    && (forall i :: (i in a || i in b) <==> 0 <= i < n)
    && forall i :: !(i in a && i in b)
  }

  lemma PartitionNext(a: seq<nat>, b: seq<nat>, n: nat)
    requires Increasing(a) && Increasing(b) && Partition(a, b, n)
    ensures Increasing(a + [n]) && Partition(a + [n], b, n + 1)
    ensures Increasing(b + [n]) && Partition(a, b + [n], n + 1)
  {
    assert forall i :: 0 <= i < |a| ==> a[i] in a;
    assert forall i :: 0 <= i < |b| ==> b[i] in b;
    assert forall i :: i in a + [n] <==> i in a || i == n;
    assert forall i :: i in b + [n] <==> i in b || i == n;
  }

  /** At these positions stand the decisions whose names are passed on. */
  ghost predicate PassedOn(decisions: seq<Decision>, eligible: seq<string>, kept: seq<nat>) {
    && |eligible| == |kept|
    && forall j :: 0 <= j < |kept| ==>
         kept[j] < |decisions| && decisions[kept[j]].allowed && eligible[j] == decisions[kept[j]].repository
  }

  /** At these positions stand the decisions that are reported. */
  ghost predicate Reported(decisions: seq<Decision>, refused: seq<Decision>, left: seq<nat>) {
    && |refused| == |left|
    && forall j :: 0 <= j < |left| ==>
         left[j] < |decisions| && !decisions[left[j]].allowed && refused[j] == decisions[left[j]]
  }

  lemma PassedOnNext(decisions: seq<Decision>, eligible: seq<string>, kept: seq<nat>)
    requires decisions != [] && PassedOn(decisions[..|decisions| - 1], eligible, kept)
    ensures PassedOn(decisions, eligible, kept)
    ensures var n := |decisions| - 1;
      decisions[n].allowed ==> PassedOn(decisions, eligible + [decisions[n].repository], kept + [n])
  {}

  lemma ReportedNext(decisions: seq<Decision>, refused: seq<Decision>, left: seq<nat>)
    requires decisions != [] && Reported(decisions[..|decisions| - 1], refused, left)
    ensures Reported(decisions, refused, left)
    ensures var n := |decisions| - 1;
      !decisions[n].allowed ==> Reported(decisions, refused + [decisions[n]], left + [n])
  {}

  /**
    Each discovered repository is decided once: its position is in exactly one of two increasing lists,
    those of the names passed on and those of the refusals reported, and what stands there is its own decision.
   */
  lemma {:induction false} DiscoveryIsPartitioned(decisions: seq<Decision>) returns (kept: seq<nat>, left: seq<nat>)
    ensures Increasing(kept) && Increasing(left) && Partition(kept, left, |decisions|)
    ensures PassedOn(decisions, Eligible(decisions), kept) && Reported(decisions, Refused(decisions), left)
  {
    assert PassedOn([], [], []) && Reported([], [], []) && Increasing([]) && Partition([], [], 0);
    if decisions == [] {
      kept, left := [], [];
    } else {
      var n := |decisions| - 1;
      var init := decisions[..n];
      hide Increasing, Partition, PassedOn, Reported;
      kept, left := DiscoveryIsPartitioned(init);
      PartitionNext(kept, left, n);
      PassedOnNext(decisions, Eligible(init), kept);
      ReportedNext(decisions, Refused(init), left);
      assert Eligible(init) + [] == Eligible(init) && Refused(init) + [] == Refused(init);
      if decisions[n].allowed {
        kept := kept + [n];
      } else {
        left := left + [n];
      }
    }
  }

  /** No opted-out or denied repository is passed on. */
  lemma EligibleIsUnlisted(table: Table, repositories: seq<string>, product: string, operation: string, name: string)
    requires name in Eligible(Decisions(table, repositories, product, operation))
    ensures RowKey(name, OptOut) !in table && RowKey(name, Denylist) !in table
  {
    hide Evaluate, Eligible;
    var decisions := Decisions(table, repositories, product, operation);
    var kept, left := DiscoveryIsPartitioned(decisions);
    var j :| 0 <= j < |kept| && Eligible(decisions)[j] == name;
    AllowedIsNotListed(table, repositories[kept[j]], product, operation);
  }

  /** What a step of the chain says about the table. */
  ghost predicate Holds(step: ChainStep, table: Table, name: string, operation: string) {
    match step
    case NameInvalid => false
    case OptOutExcluded => RowKey(name, OptOut) in table
    case OptOutNone => RowKey(name, OptOut) !in table
    case DenylistExcluded => RowKey(name, Denylist) in table
    case DenylistNotListed => RowKey(name, Denylist) !in table
    case AllowlistNotListed => AllowlistIsConfigured(table) && RowKey(name, Allowlist) !in table
    case AllowlistListed => RowKey(name, Allowlist) in table
    case AllowlistNotConfigured => !AllowlistIsConfigured(table)
    case TrustMissing(op) => op == operation && OperationRequiresTrust(op) && RowKey(name, Trusted) !in table
    case TrustSatisfied => RowKey(name, Trusted) in table
    case TrustNone => RowKey(name, Trusted) !in table && !OperationRequiresTrust(operation)
  }

  /** The rule a step is about, in order of precedence. */
  function Rank(step: ChainStep): nat {
    match step
    case NameInvalid => 0
    case OptOutExcluded => 0
    case OptOutNone => 0
    case DenylistExcluded => 1
    case DenylistNotListed => 1
    case AllowlistNotListed => 2
    case AllowlistListed => 2
    case AllowlistNotConfigured => 2
    case _ => 3
  }

  /**
    The chain of a decision is its reason: each step is true of the table, they follow the order of
    precedence, and the repository is allowed exactly when the chain reaches the last rule unopposed.
   */
  lemma DecisionExplained(table: Table, repository: string, product: string, operation: string)
    requires NormalizeRepoName(repository).Some?
    ensures var decision := Evaluate(table, repository, product, operation);
      var name := NormalizeRepoName(repository).value;
      && decision.repository == name
      && (decision.trusted <==> RowKey(name, Trusted) in table && RowKey(name, OptOut) !in table)
      && (forall i :: 0 <= i < |decision.chain| ==>
            Rank(decision.chain[i]) == i && Holds(decision.chain[i], table, name, Trim(operation)))
      && (decision.allowed <==> |decision.chain| == 4 && !decision.chain[3].TrustMissing?)
  {
    hide NormalizeRepoName, OperationRequiresTrust, AllowlistIsConfigured, Trim;
    NormalizeIdempotent(repository);
  }

  // ---------------------------------------------------------------------------------------
  // Runs.

  datatype Op =
    | Upsert(entry: Entry)
    | InsertIfAbsent(entry: Entry)
    | Remove(repository: string, kind: PolicyKind)
    | RemoveListings(repository: string)
    | RecordListing(repository: string, listType: string, source: string, now: Time)
    | AssertVerified(repository: string, source: string, notes: string, updatedAt: Time)
    | RevokeVerified(repository: string, source: string, updatedAt: Time)
    | Clear(kinds: ListingKinds)
    | Migrate(legacy: Legacy, now: Time)

  ghost function Apply(table: Table, op: Op): Table {
    match op
    case Upsert(entry) => Upserted(table, entry)
    case InsertIfAbsent(entry) => InsertedIfAbsent(table, entry)
    case Remove(repository, kind) => Removed(table, repository, kind)
    case RemoveListings(repository) => ListingsRemoved(table, repository)
    case RecordListing(repository, listType, source, now) => ListingRecorded(table, repository, listType, source, now)
    case AssertVerified(repository, source, notes, updatedAt) =>
      VerifiedAsserted(table, repository, source, notes, updatedAt)
    case RevokeVerified(repository, source, updatedAt) => VerifiedRevoked(table, repository, source, updatedAt)
    case Clear(kinds) => Cleared(table, kinds)
    case Migrate(legacy, now) => Migrated(table, legacy, now)
  }

  ghost function Run(table: Table, ops: seq<Op>): Table
    decreases |ops|
  {
    if ops == [] then table else Run(Apply(table, ops[0]), ops[1..])
  }

  lemma {:induction false} RunAppend(table: Table, ops: seq<Op>, more: seq<Op>)
    ensures Run(table, ops + more) == Run(Run(table, ops), more)
    decreases |ops|
  {
    hide Apply;
    if ops == [] {
      assert ops + more == more;
    } else {
      assert (ops + more)[1..] == ops[1..] + more;
      RunAppend(Apply(table, ops[0]), ops[1..], more);
    }
  }

  lemma RunOne(table: Table, op: Op)
    ensures Run(table, [op]) == Apply(table, op)
  {
    hide Apply;
    assert [op][1..] == [];
  }

  /** A verified opt-out of `name`, owned by `source` and at least as recent as `since`. */
  ghost predicate OptedOut(table: Table, name: string, source: string, since: Time) {
    var key := RowKey(name, OptOut);
    key in table && table[key].verified && table[key].source == source && since <= table[key].updatedAt
  }

  /** The one operation that may end an opt-out: its own authority, with evidence not older than `since`. */
  ghost predicate MayRevoke(op: Op, name: string, source: string, since: Time) {
    op.RevokeVerified? && NormalizeRepoName(op.repository) == Some(name) && op.source == source && since <= op.updatedAt
  }

  /** One step ends a verified opt-out exactly when it is a revocation its authority is entitled to. */
  lemma StepKeepsOptOut(table: Table, op: Op, name: string)
    requires RowKey(name, OptOut) in table && table[RowKey(name, OptOut)].verified
    ensures var row := table[RowKey(name, OptOut)];
      OptedOut(Apply(table, op), name, row.source, row.updatedAt) <==> !MayRevoke(op, name, row.source, row.updatedAt)
  {
    hide NormalizeRepoName;
    hide ParseKind;
  }

  /** A verified opt-out binds every product through any run its own authority does not end. */
  lemma {:induction false} OptOutBindsRuns(table: Table, ops: seq<Op>, name: string, source: string, since: Time)
    requires OptedOut(table, name, source, since)
    requires forall i :: 0 <= i < |ops| ==> !MayRevoke(ops[i], name, source, since)
    ensures OptedOut(Run(table, ops), name, source, since)
    ensures Excluded(Run(table, ops), name)
    decreases |ops|
  {
    if ops == [] {
      ListedExclusionBinds(table, name);
    } else {
      StepKeepsOptOut(table, ops[0], name);
      OptOutBindsRuns(Apply(table, ops[0]), ops[1..], name, source, since);
    }
  }

  // ---------------------------------------------------------------------------------------
  // Verified assertions as a max register.

  datatype Delivery = Delivery(notes: string, updatedAt: Time)

  function Latest(deliveries: seq<Delivery>): (r: Delivery)
    requires deliveries != []
    ensures r in deliveries
    ensures forall d :: d in deliveries ==> d.updatedAt <= r.updatedAt
  {
    var last := deliveries[|deliveries| - 1];
    var init := deliveries[..|deliveries| - 1];
    assert forall d :: d in deliveries ==> d in init || d == last;
    if init == [] then last
    else
      var best := Latest(init);
      if best.updatedAt <= last.updatedAt then last else best
  }

  ghost function Delivered(table: Table, name: string, source: string, deliveries: seq<Delivery>): Table {
    if deliveries == [] then table
    else
      var last := deliveries[|deliveries| - 1];
      var before := Delivered(table, name, source, deliveries[..|deliveries| - 1]);
      VerifiedAsserted(before, name, source, last.notes, last.updatedAt)
  }

  /** Whatever order a feed arrives in, the newest assertion of the authority is what is stored. */
  lemma {:induction false} DeliveriesKeepLatest(table: Table, name: string, source: string, deliveries: seq<Delivery>)
    requires IsNormalized(name) && deliveries != []
    requires var key := RowKey(name, OptOut); key in table ==> !table[key].verified
    ensures var latest := Latest(deliveries);
      Delivered(table, name, source, deliveries)
        == table[RowKey(name, OptOut) := Row(source, latest.notes, true, latest.updatedAt)]
  {
    hide NormalizeRepoName;
    var init := deliveries[..|deliveries| - 1];
    if init == [] {
      assert Delivered(table, name, source, init) == table;
    } else {
      DeliveriesKeepLatest(table, name, source, init);
    }
  }

  /** With distinct timestamps the stored row does not depend on the delivery order. */
  lemma DeliveryOrderIrrelevant(table: Table, name: string, source: string, first: seq<Delivery>, second: seq<Delivery>)
    requires IsNormalized(name) && first != []
    requires var key := RowKey(name, OptOut); key in table ==> !table[key].verified
    requires forall d :: d in first <==> d in second
    requires forall d, e :: d in first && e in first && d.updatedAt == e.updatedAt ==> d == e
    ensures Delivered(table, name, source, first) == Delivered(table, name, source, second)
  {
    assert first[0] in second;
    DeliveriesKeepLatest(table, name, source, first);
    DeliveriesKeepLatest(table, name, source, second);
    assert Latest(first) == Latest(second);
  }

  // ---------------------------------------------------------------------------------------
  // Agreement with the set-based view.

  /** Every stored name is in the one spelling lookups use. */
  ghost predicate NormalizedTable(table: Table) {
    forall key :: key in table ==> IsNormalized(key.repository)
  }

  ghost predicate NormalizedClaims(claims: seq<Claim>) {
    forall c :: c in claims ==> IsNormalized(c.repository)
  }

  lemma {:induction false} ListClaimsNormalized(source: string, rows: seq<(string, string)>)
    ensures NormalizedClaims(ListClaims(source, rows))
  {
    hide NormalizeRepoName;
    hide ParseKind;
    if rows == [] {
    } else {
      ListClaimsNormalized(source, rows[..|rows| - 1]);
      NormalizeIdempotent(rows[|rows| - 1].0);
    }
  }

  lemma {:induction false} HiveCoreClaimsNormalized(rows: seq<HiveCoreRow>)
    ensures NormalizedClaims(HiveCoreClaims(rows))
  {
    hide NormalizeRepoName;
    if rows == [] {
    } else {
      HiveCoreClaimsNormalized(rows[..|rows| - 1]);
      NormalizeIdempotent(rows[|rows| - 1].repository);
    }
  }

  lemma {:induction false} TextClaimsNormalized(candidates: seq<string>, kind: PolicyKind)
    ensures NormalizedClaims(TextClaims(candidates, kind))
  {
    hide NormalizeRepoName;
    if candidates == [] {
    } else {
      TextClaimsNormalized(candidates[..|candidates| - 1], kind);
      NormalizeIdempotent(candidates[|candidates| - 1]);
    }
  }

  lemma LegacyClaimsNormalized(legacy: Legacy)
    ensures NormalizedClaims(LegacyClaims(legacy))
  {
    hide ListClaims;
    hide HiveCoreClaims;
    hide TextClaims;
    hide IsNormalized;
    forall source, rows {
      ListClaimsNormalized(source, rows);
    }
    forall rows {
      HiveCoreClaimsNormalized(rows);
    }
    forall candidates, kind {
      TextClaimsNormalized(candidates, kind);
    }
  }

  lemma StepKeepsNormalized(table: Table, op: Op)
    requires NormalizedTable(table)
    ensures NormalizedTable(Apply(table, op))
  {
    hide NormalizeRepoName;
    hide ParseKind;
    hide LegacyClaims;
    if op.Migrate? {
      LegacyClaimsNormalized(op.legacy);
    } else if op.Upsert? || op.InsertIfAbsent? {
      NormalizeIdempotent(op.entry.repository);
    } else if !op.Clear? {
      NormalizeIdempotent(op.repository);
    }
  }

  lemma {:induction false} RunKeepsNormalized(table: Table, ops: seq<Op>)
    requires NormalizedTable(table)
    ensures NormalizedTable(Run(table, ops))
    decreases |ops|
  {
    if ops == [] {
    } else {
      StepKeepsNormalized(table, ops[0]);
      RunKeepsNormalized(Apply(table, ops[0]), ops[1..]);
    }
  }

  function Repositories(table: Table, kind: PolicyKind): set<string> {
    set key | key in table && key.kind == kind :: key.repository
  }

  /** What a product that filters with the three sets of `scope_policy` decides. */
  function ScopeDecision(table: Table, repository: string): RepoScopeDecision {
    DecideScope(repository, NormalizeSet(Repositories(table, Allowlist)),
                NormalizeSet(Repositories(table, Denylist)), NormalizeSet(Repositories(table, OptOut)))
  }

  lemma RepositoriesMembers(table: Table, kind: PolicyKind, name: string)
    requires NormalizedTable(table)
    ensures NormalizeSet(Repositories(table, kind)) == Repositories(table, kind)
    ensures name in Repositories(table, kind) <==> RowKey(name, kind) in table
  {
    hide NormalizeRepoName;
    NormalizeSetFixed(Repositories(table, kind));
  }

  lemma AllowlistConfigured(table: Table)
    ensures AllowlistIsConfigured(table) <==> Repositories(table, Allowlist) != {}
  {
    if AllowlistIsConfigured(table) {
      var key :| key in table && key.kind == Allowlist;
      assert key.repository in Repositories(table, Allowlist);
    }
  }

  ghost predicate Agree(table: Table, repository: string, product: string, operation: string) {
    Evaluate(table, repository, product, operation).allowed
    <==>
    (ScopeDecision(table, repository) == Allowed
     && (OperationRequiresTrust(Trim(operation)) ==> Trusted in EntriesFor(table, repository)))
  }

  lemma EvaluatorsAgreeOn(table: Table, repository: string, product: string, operation: string)
    requires NormalizedTable(table)
    ensures Agree(table, repository, product, operation)
  {
    hide NormalizeRepoName;
    hide NormalizeSet;
    hide Repositories;
    hide OperationRequiresTrust;
    hide AllowlistIsConfigured;
    hide Trim;
    var name := NormalizeRepoName(repository);
    if name.Some? {
      NormalizeIdempotent(repository);
      AllowlistConfigured(table);
      RepositoriesMembers(table, Allowlist, name.value);
      RepositoriesMembers(table, Denylist, name.value);
      RepositoriesMembers(table, OptOut, name.value);
    }
  }

  /**
    On every table a run can reach, the evaluator and the set-based view give the same answer:
    a repository is eligible exactly when the sets allow it and any trust the operation needs is there.
   */
  lemma EvaluatorsAgree(ops: seq<Op>, repository: string, product: string, operation: string)
    ensures Agree(Run(map[], ops), repository, product, operation)
  {
    RunKeepsNormalized(map[], ops);
    EvaluatorsAgreeOn(Run(map[], ops), repository, product, operation);
  }

  // ---------------------------------------------------------------------------------------
  // The list editor.

  /** The rows of a repository its public authority does not own. */
  ghost predicate HasOperatorRow(table: Table, name: string) {
    exists kind :: RowKey(name, kind) in table && !IsVerifiedOptOut(RowKey(name, kind), table[RowKey(name, kind)])
  }

  /**
    `remove_listings` is documented to remove every operator-owned listing and to keep verified
    opt-outs. It also keeps opt-outs an operator entered, so it does what it says exactly when the
    repository has no unverified opt-out.
   */
  lemma RemoveListingsLeavesOperatorOptOut(table: Table, name: string)
    requires IsNormalized(name)
    ensures var key := RowKey(name, OptOut);
      !HasOperatorRow(ListingsRemoved(table, name), name) <==> !(key in table && !table[key].verified)
  {
    hide NormalizeRepoName;
    var after := ListingsRemoved(table, name);
    var key := RowKey(name, OptOut);
    assert key in after <==> key in table;
    assert forall kind :: kind != OptOut ==> RowKey(name, kind) !in after;
  }

  lemma RemoveListingsCounterexample()
    ensures var table := map[RowKey("owner/quiet", OptOut) := Row("operator", "", false, 0)];
      ListingsRemoved(table, "owner/quiet") == table && HasOperatorRow(table, "owner/quiet")
  {
    hide NormalizeRepoName;
    var table := map[RowKey("owner/quiet", OptOut) := Row("operator", "", false, 0)];
    assert RowKey("owner/quiet", OptOut) in table;
    assert Lower("owner") == "owner" && Lower("quiet") == "quiet";
    assert "owner" + "/" + "quiet" == "owner/quiet";
    JoinedPartsNormalize("owner", "quiet");
    assert ListingsRemoved(table, "owner/quiet") == table;
  }
}
