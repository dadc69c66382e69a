/** The store itself: every statement of `repo_policy.rs` as an update of the table in place. */
module RepoPolicyStore {
  import opened Wrappers
  import opened Text
  import opened Ordering
  import opened ScopePolicy
  import opened RepoPolicyTable
  import opened RepoPolicy
  import opened RepoPolicyMigration

  datatype PolicyConflict = PolicyConflict(repository: string, claims: seq<Claim>, resolvedTo: PolicyKind)

  datatype MigrationReport = MigrationReport(imported: nat, conflicts: seq<PolicyConflict>, sources: seq<string>)

  type Groups = map<string, seq<Claim>>

  /** `groups` holds exactly the claims found so far, by repository and in reading order. */
  ghost predicate Grouped(groups: Groups, found: seq<Claim>) {
    && (forall name :: name in groups <==> exists c :: c in found && c.repository == name)
    && (forall name :: name in groups ==> groups[name] == ForRepository(found, name))
  }

  function Push(groups: Groups, claim: Claim): Groups {
    groups[claim.repository := (if claim.repository in groups then groups[claim.repository] else []) + [claim]]
  }

  lemma {:induction false} ForRepositoryNone(found: seq<Claim>, name: string)
    requires forall c :: c in found ==> c.repository != name
    ensures ForRepository(found, name) == []
  {
    if found == [] {
    } else {
      ForRepositoryNone(found[..|found| - 1], name);
      assert found[|found| - 1] in found;
    }
  }

  lemma PushGrouped(groups: Groups, found: seq<Claim>, claim: Claim)
    requires Grouped(groups, found)
    ensures Grouped(Push(groups, claim), found + [claim])
  {
    var after := Push(groups, claim);
    assert forall c :: c in found + [claim] <==> c in found || c == claim;
    forall name | name in after
      ensures after[name] == ForRepository(found + [claim], name)
    {
      ForRepositoryAppend(found, [claim], name);
      assert [claim][..0] == [];
      if name !in groups {
        ForRepositoryNone(found, name);
      }
    }
  }

  lemma ListClaimsStart(found: seq<Claim>, source: string, rows: seq<(string, string)>)
    ensures found == found + ListClaims(source, rows[..0])
  {}

  lemma ListClaimsNext(found: seq<Claim>, source: string, rows: seq<(string, string)>, i: nat)
    requires i < |rows|
    ensures found + ListClaims(source, rows[..i]) + ListRowClaims(source, rows[i])
      == found + ListClaims(source, rows[..i + 1])
  {
    hide ListRowClaims;
    assert rows[..i + 1][..i] == rows[..i];
  }

  method AddListRows(groups: Groups, ghost found: seq<Claim>, source: string, rows: Option<seq<(string, string)>>)
    returns (after: Groups)
    requires Grouped(groups, found)
    ensures Grouped(after, found + OptionalListClaims(source, rows))
  {
    hide Grouped, ListClaims, NormalizeRepoName, ParseKind;
    after := groups;
    assert found + [] == found;
    if rows.Some? {
      var rows := rows.value;
      ghost var read := found;
      ListClaimsStart(found, source, rows);
      for i := 0 to |rows|
        invariant read == found + ListClaims(source, rows[..i]) && Grouped(after, read)
      {
        ListClaimsNext(found, source, rows, i);
        var name, kind := NormalizeRepoName(rows[i].0), ParseKind(rows[i].1);
        if name.Some? && kind.Some? {
          var claim := Claim(name.value, source, kind.value);
          PushGrouped(after, read, claim);
          after := Push(after, claim);
        } else {
          assert read + [] == read;
        }
        read := read + ListRowClaims(source, rows[i]);
      }
      assert rows[..|rows|] == rows;
    }
  }

  lemma HiveCoreClaimsStart(found: seq<Claim>, rows: seq<HiveCoreRow>)
    ensures found == found + HiveCoreClaims(rows[..0])
  {}

  lemma HiveCoreClaimsNext(found: seq<Claim>, rows: seq<HiveCoreRow>, i: nat)
    requires i < |rows|
    ensures found + HiveCoreClaims(rows[..i]) + HiveCoreRowClaims(rows[i]) == found + HiveCoreClaims(rows[..i + 1])
  {
    hide HiveCoreRowClaims;
    assert rows[..i + 1][..i] == rows[..i];
  }

  lemma HiveCoreRowParts(read: seq<Claim>, row: HiveCoreRow)
    ensures read + HiveCoreRowClaims(row) ==
      match NormalizeRepoName(row.repository)
      case None => read
      case Some(name) =>
        var denied := if row.excluded then read + [Claim(name, "repository_policies", Denylist)] else read;
        if row.trusted then denied + [Claim(name, "repository_policies", Trusted)] else denied
  {
    hide NormalizeRepoName;
  }

  method AddHiveCoreRows(groups: Groups, ghost found: seq<Claim>, rows: seq<HiveCoreRow>) returns (after: Groups)
    requires Grouped(groups, found)
    ensures Grouped(after, found + HiveCoreClaims(rows))
  {
    hide Grouped, HiveCoreClaims, HiveCoreRowClaims, NormalizeRepoName;
    after := groups;
    ghost var read := found;
    HiveCoreClaimsStart(found, rows);
    for i := 0 to |rows|
      invariant read == found + HiveCoreClaims(rows[..i]) && Grouped(after, read)
    {
      HiveCoreClaimsNext(found, rows, i);
      HiveCoreRowParts(read, rows[i]);
      var name := NormalizeRepoName(rows[i].repository);
      if name.Some? {
        if rows[i].excluded {
          var claim := Claim(name.value, "repository_policies", Denylist);
          PushGrouped(after, read, claim);
          after, read := Push(after, claim), read + [claim];
        }
        if rows[i].trusted {
          var claim := Claim(name.value, "repository_policies", Trusted);
          PushGrouped(after, read, claim);
          after, read := Push(after, claim), read + [claim];
        }
      }
    }
    assert rows[..|rows|] == rows;
  }

  lemma TextClaimsStart(found: seq<Claim>, candidates: seq<string>, kind: PolicyKind)
    ensures found == found + TextClaims(candidates[..0], kind)
  {}

  lemma TextClaimsNext(found: seq<Claim>, candidates: seq<string>, kind: PolicyKind, i: nat)
    requires i < |candidates|
    ensures found + TextClaims(candidates[..i], kind) + CandidateClaims(candidates[i], kind)
      == found + TextClaims(candidates[..i + 1], kind)
  {
    hide CandidateClaims;
    assert candidates[..i + 1][..i] == candidates[..i];
  }

  method AddCandidates(groups: Groups, ghost found: seq<Claim>, candidates: seq<string>, kind: PolicyKind)
    returns (after: Groups)
    requires Grouped(groups, found)
    ensures Grouped(after, found + TextClaims(candidates, kind))
  {
    hide Grouped, TextClaims, NormalizeRepoName;
    after := groups;
    ghost var read := found;
    TextClaimsStart(found, candidates, kind);
    for i := 0 to |candidates|
      invariant read == found + TextClaims(candidates[..i], kind) && Grouped(after, read)
    {
      TextClaimsNext(found, candidates, kind, i);
      var name := NormalizeRepoName(candidates[i]);
      if name.Some? {
        var claim := Claim(name.value, "suite_settings", kind);
        PushGrouped(after, read, claim);
        after := Push(after, claim);
      } else {
        assert read + [] == read;
      }
      read := read + CandidateClaims(candidates[i], kind);
    }
    assert candidates[..|candidates|] == candidates;
  }

  lemma NothingGrouped()
    ensures Grouped(map[], [])
  {}

  lemma LegacyClaimsParts(legacy: Legacy, found: seq<Claim>)
    requires found == OptionalListClaims("repo_lists", legacy.repoLists)
      + OptionalListClaims("refactor_scout_repo_lists", legacy.refactorScoutLists)
      + OptionalListClaims("repo_reaper_repo_lists", legacy.repoReaperLists)
      + (if legacy.hiveCorePolicies.Some? then HiveCoreClaims(legacy.hiveCorePolicies.value) else [])
    ensures LegacyClaims(legacy) == found +
      match legacy.suiteSettings
      case Some(Some(lists)) =>
        TextClaims(SplitBy(lists.0, IsListSeparator), Allowlist)
          + TextClaims(SplitBy(lists.1, IsListSeparator), Denylist)
      case _ => []
  {
    hide OptionalListClaims;
    hide HiveCoreClaims;
    hide TextClaims;
    hide SplitBy;
  }

  /** Reads every old store that exists. */
  method CollectClaims(legacy: Legacy) returns (groups: Groups)
    ensures Grouped(groups, LegacyClaims(legacy))
  {
    hide *;
    ghost var lists := OptionalListClaims("repo_lists", legacy.repoLists);
    ghost var scouts := OptionalListClaims("refactor_scout_repo_lists", legacy.refactorScoutLists);
    ghost var reapers := OptionalListClaims("repo_reaper_repo_lists", legacy.repoReaperLists);
    NothingGrouped();
    groups := AddListRows(map[], [], "repo_lists", legacy.repoLists);
    assert [] + lists == lists;
    groups := AddListRows(groups, lists, "refactor_scout_repo_lists", legacy.refactorScoutLists);
    groups := AddListRows(groups, lists + scouts, "repo_reaper_repo_lists", legacy.repoReaperLists);
    ghost var found := lists + scouts + reapers;
    ghost var policies := if legacy.hiveCorePolicies.Some? then HiveCoreClaims(legacy.hiveCorePolicies.value) else [];
    if legacy.hiveCorePolicies.Some? {
      groups := AddHiveCoreRows(groups, found, legacy.hiveCorePolicies.value);
    } else {
      assert found + policies == found;
    }
    found := found + policies;
    if legacy.suiteSettings.Some? && legacy.suiteSettings.value.Some? {
      var lists := legacy.suiteSettings.value.value;
      var allowed, denied := SplitBy(lists.0, IsListSeparator), SplitBy(lists.1, IsListSeparator);
      groups := AddCandidates(groups, found, allowed, Allowlist);
      groups := AddCandidates(groups, found + TextClaims(allowed, Allowlist), denied, Denylist);
      assert found + TextClaims(allowed, Allowlist) + TextClaims(denied, Denylist)
        == found + (TextClaims(allowed, Allowlist) + TextClaims(denied, Denylist));
    } else {
      assert found + [] == found;
    }
    LegacyClaimsParts(legacy, found);
  }

  method FirstInOrder(names: set<string>) returns (first: string)
    requires names != {}
    ensures first in names && forall other :: other in names && other != first ==> Less(first, other)
  {
    ghost var least := LeastExists(names);
    hide *;
    first :| first in names && forall other :: other in names && other != first ==> Less(first, other);
  }

  function SourcesRead(legacy: Legacy): seq<string> {
    (if legacy.repoLists.Some? then ["repo_lists"] else [])
    + (if legacy.refactorScoutLists.Some? then ["refactor_scout_repo_lists"] else [])
    + (if legacy.repoReaperLists.Some? then ["repo_reaper_repo_lists"] else [])
    + (if legacy.hiveCorePolicies.Some? then ["repository_policies"] else [])
    + (if legacy.suiteSettings.Some? then ["suite_settings"] else [])
  }

  lemma SourcesAre(legacy: Legacy)
    ensures forall source :: source in SourcesRead(legacy) <==>
      || (source == "repo_lists" && legacy.repoLists.Some?)
      || (source == "refactor_scout_repo_lists" && legacy.refactorScoutLists.Some?)
      || (source == "repo_reaper_repo_lists" && legacy.repoReaperLists.Some?)
      || (source == "repository_policies" && legacy.hiveCorePolicies.Some?)
      || (source == "suite_settings" && legacy.suiteSettings.Some?)
  {}

  ghost function DisputeKey(conflict: Option<PolicyConflict>): Option<RowKey> {
    match conflict
    case None => None
    case Some(c) => Some(RowKey(c.repository, c.resolvedTo))
  }

  ghost function ConflictKeys(conflicts: seq<PolicyConflict>): set<RowKey> {
    set c | c in conflicts :: RowKey(c.repository, c.resolvedTo)
  }

  /** The rows written once the repositories `done` have been migrated. */
  ghost predicate RowsSoFar(before: Table, legacy: Legacy, now: Time, done: set<string>, rows: Table, imported: nat) {
    && rows == WithMissing(before, KeysOf(MigrationKeys(ClaimKeys(LegacyClaims(legacy))), done), now)
    && |rows| == |before| + imported
  }

  /** The conflicts reported once the repositories `done` have been migrated. */
  ghost predicate ConflictsSoFar(before: Table, legacy: Legacy, done: set<string>, conflicts: seq<PolicyConflict>) {
    && ConflictKeys(conflicts) == KeysOf(Settled(before, legacy), done)
    && |conflicts| == |ConflictKeys(conflicts)|
    && forall c :: c in conflicts ==> c.claims == SortedByStrength(ForRepository(LegacyClaims(legacy), c.repository))
  }

  lemma MigrationStart(before: Table, legacy: Legacy, now: Time)
    ensures RowsSoFar(before, legacy, now, {}, before, 0) && ConflictsSoFar(before, legacy, {}, [])
  {
    hide LegacyClaims;
  }

  lemma WithMissingNone(table: Table, now: Time)
    ensures WithMissing(table, {}, now) == table
  {}

  lemma WroteMeansAbsent(table: Table, key: RowKey, now: Time)
    ensures WithMissing(table, {key}, now) != table <==> key !in table
  {
    if key !in table {
      assert key in WithMissing(table, {key}, now);
    }
  }

  lemma GroupNormalized(groups: Groups, legacy: Legacy, name: string)
    requires Grouped(groups, LegacyClaims(legacy)) && name in groups
    ensures IsNormalized(name) && groups[name] == ForRepository(LegacyClaims(legacy), name)
  {
    hide LegacyClaims;
    hide NormalizeRepoName;
    LegacyClaimsNormalized(legacy);
  }

  lemma RowsNext(
    before: Table, legacy: Legacy, now: Time, done: set<string>, name: string, table: Table, imported: nat,
    rows: Table, added: nat)
    requires RowsSoFar(before, legacy, now, done, table, imported)
    requires rows == WithMissing(table, RepositoryKeys(name, ForRepository(LegacyClaims(legacy), name)), now)
    requires |rows| == |table| + added
    ensures RowsSoFar(before, legacy, now, done + {name}, rows, imported + added)
  {
    hide LegacyClaims;
    hide MigrationKeys;
    hide ClaimKeys;
    hide KeysOf;
    hide WithMissing;
    hide RepositoryKeys;
    hide ForRepository;
    var claims := LegacyClaims(legacy);
    MigrationKeysNext(claims, done, name);
    WithMissingTwice(
      before, KeysOf(MigrationKeys(ClaimKeys(claims)), done), RepositoryKeys(name, ForRepository(claims, name)), now);
  }

  /** Rows written for other repositories do not change what is disputed here. */
  lemma DisputeUnaffected(before: Table, keys: set<RowKey>, now: Time, name: string, own: seq<Claim>)
    requires forall key :: key in keys ==> key.repository != name
    ensures RepositoryDispute(WithMissing(before, keys, now), name, own) == RepositoryDispute(before, name, own)
  {
    hide SortedByStrength;
    hide FirstListing;
  }

  lemma ConflictAppended(conflicts: seq<PolicyConflict>, conflict: PolicyConflict)
    ensures ConflictKeys(conflicts + [conflict])
      == ConflictKeys(conflicts) + {RowKey(conflict.repository, conflict.resolvedTo)}
  {
    assert forall c :: c in conflicts + [conflict] <==> c in conflicts || c == conflict;
  }

  lemma ConflictsNext(
    before: Table, legacy: Legacy, now: Time, done: set<string>, name: string, table: Table, imported: nat,
    conflicts: seq<PolicyConflict>, conflict: Option<PolicyConflict>)
    requires name !in done
    requires RowsSoFar(before, legacy, now, done, table, imported) && ConflictsSoFar(before, legacy, done, conflicts)
    requires RepositoryDispute(table, name, ForRepository(LegacyClaims(legacy), name)) == DisputeKey(conflict)
    requires conflict.Some? ==>
      conflict.value.repository == name
      && conflict.value.claims == SortedByStrength(ForRepository(LegacyClaims(legacy), name))
    ensures ConflictsSoFar(
              before, legacy, done + {name}, if conflict.Some? then conflicts + [conflict.value] else conflicts)
  {
    hide LegacyClaims;
    hide MigrationKeys;
    hide ClaimKeys;
    hide WithMissing;
    hide Settled;
    hide RepositoryDispute;
    hide SortedByStrength;
    hide ForRepository;
    hide ConflictKeys;
    var wanted := MigrationKeys(ClaimKeys(LegacyClaims(legacy)));
    SettledNext(before, legacy, done, name);
    DisputeUnaffected(before, KeysOf(wanted, done), now, name, ForRepository(LegacyClaims(legacy), name));
    if conflict.Some? {
      ConflictAppended(conflicts, conflict.value);
    }
  }

  lemma MigrationEnd(
    before: Table, legacy: Legacy, now: Time, groups: Groups, rows: Table, imported: nat,
    conflicts: seq<PolicyConflict>)
    requires Grouped(groups, LegacyClaims(legacy))
    requires RowsSoFar(before, legacy, now, groups.Keys, rows, imported)
      && ConflictsSoFar(before, legacy, groups.Keys, conflicts)
    ensures rows == Migrated(before, legacy, now)
    ensures imported == |AddedKeys(before, legacy)|
    ensures ConflictKeys(conflicts) == Settled(before, legacy) && |conflicts| == |Settled(before, legacy)|
    ensures forall c :: c in conflicts ==>
      c.claims == SortedByStrength(ForRepository(LegacyClaims(legacy), c.repository))
  {
    hide LegacyClaims, ForRepository, WithMissing, SortedByStrength, IsStrongest, Disputed, ConflictKeys;
    var keys := ClaimKeys(LegacyClaims(legacy));
    assert forall key :: key in keys ==> key.repository in groups.Keys;
    KeysOfAll(MigrationKeys(keys), groups.Keys);
    KeysOfAll(Settled(before, legacy), groups.Keys);
    hide MigrationKeys;
    hide Settled;
    hide KeysOf;
    MigrationOnlyAdds(before, legacy, now);
  }

  class RepoPolicyStore {
    var rows: Table

    constructor ()
      ensures rows == map[]
    {
      rows := map[];
    }

    method Upsert(entry: Entry) returns (r: Result<(), string>)
      modifies this
      ensures rows == Upserted(old(rows), entry)
      ensures r.Ok? <==> NormalizeRepoName(entry.repository).Some?
    {
      hide NormalizeRepoName;
      match NormalizeRepoName(entry.repository) {
        case None => return Err("repository must be owner/repo");
        case Some(name) =>
          var key := RowKey(name, entry.kind);
          if key !in rows || !IsVerifiedOptOut(key, rows[key]) {
            rows := rows[key := entry.row];
          }
          return Ok(());
      }
    }

    /** Reports whether a row was written. */
    method InsertIfAbsent(entry: Entry) returns (r: Result<bool, string>)
      modifies this
      ensures rows == InsertedIfAbsent(old(rows), entry)
      ensures r.Ok? <==> NormalizeRepoName(entry.repository).Some?
      ensures r.Ok? ==> |rows| == |old(rows)| + if r.value then 1 else 0
      ensures r.Ok? ==> r.value == (rows != old(rows))
    {
      hide NormalizeRepoName;
      match NormalizeRepoName(entry.repository) {
        case None => return Err("repository must be owner/repo");
        case Some(name) =>
          var key := RowKey(name, entry.kind);
          if key in rows {
            return Ok(false);
          }
          rows := rows[key := entry.row];
          assert rows.Keys == old(rows).Keys + {key};
          assert key in rows && key !in old(rows);
          return Ok(true);
      }
    }

    method Remove(repository: string, kind: PolicyKind) returns (changed: bool)
      modifies this
      ensures rows == Removed(old(rows), repository, kind)
      ensures changed <==> rows != old(rows)
    {
      hide NormalizeRepoName;
      match NormalizeRepoName(repository) {
        case None => return false;
        case Some(name) =>
          var key := RowKey(name, kind);
          if key in rows && !IsVerifiedOptOut(key, rows[key]) {
            rows := rows - {key};
            assert key !in rows && key in old(rows);
            return true;
          }
          return false;
      }
    }

    /** Reports how many rows went. */
    method RemoveListings(repository: string) returns (removed: nat)
      modifies this
      ensures rows == ListingsRemoved(old(rows), repository)
      ensures removed == |old(rows)| - |rows|
    {
      hide NormalizeRepoName;
      match NormalizeRepoName(repository) {
        case None => return 0;
        case Some(name) =>
          var keys := {RowKey(name, Denylist), RowKey(name, Allowlist), RowKey(name, Trusted)};
          var gone := keys * rows.Keys;
          rows := rows - keys;
          assert rows.Keys == old(rows).Keys - gone;
          return |gone|;
      }
    }

    method RecordListing(repository: string, listType: string, source: string, now: Time)
      returns (r: Result<Entry, string>)
      modifies this
      ensures rows == ListingRecorded(old(rows), repository, listType, source, now)
      ensures r == match (NormalizeRepoName(repository), ParseKind(listType))
        case (None, _) => Err("Repository must use owner/repo format.")
        case (Some(_), None) => Err("Unknown list type.")
        case (Some(name), Some(kind)) => Ok(ListingEntry(name, kind, source, now))
    {
      NormalizeIdempotent(repository);
      hide NormalizeRepoName;
      hide ParseKind;
      var name := NormalizeRepoName(repository);
      if name.None? {
        return Err("Repository must use owner/repo format.");
      }
      var kind := ParseKind(listType);
      if kind.None? {
        return Err("Unknown list type.");
      }
      var entry := ListingEntry(name.value, kind.value, source, now);
      var _ := Upsert(entry);
      return Ok(entry);
    }

    method UpsertVerifiedOptOut(repository: string, source: string, notes: string, updatedAt: Time)
      returns (r: Result<bool, string>)
      modifies this
      ensures rows == VerifiedAsserted(old(rows), repository, source, notes, updatedAt)
      ensures match NormalizeRepoName(repository)
        case None => r.Err?
        case Some(name) =>
          var key := RowKey(name, OptOut);
          r == Ok(key in old(rows) ==> AcceptsAssertion(old(rows)[key], source, updatedAt))
    {
      hide NormalizeRepoName;
      match NormalizeRepoName(repository) {
        case None => return Err("repository must be owner/repo");
        case Some(name) =>
          var key := RowKey(name, OptOut);
          if key in rows && !AcceptsAssertion(rows[key], source, updatedAt) {
            return Ok(false);
          }
          rows := rows[key := Row(source, notes, true, updatedAt)];
          return Ok(true);
      }
    }

    method RevokeVerifiedOptOut(repository: string, source: string, updatedAt: Time) returns (changed: bool)
      modifies this
      ensures rows == VerifiedRevoked(old(rows), repository, source, updatedAt)
      ensures changed <==> rows != old(rows)
    {
      hide NormalizeRepoName;
      match NormalizeRepoName(repository) {
        case None => return false;
        case Some(name) =>
          var key := RowKey(name, OptOut);
          if key in rows && AcceptsRevocation(rows[key], source, updatedAt) {
            rows := rows - {key};
            assert key !in rows && key in old(rows);
            return true;
          }
          return false;
      }
    }

    /** The three sets, without trust; its decisions are those of `ScopeDecision`. */
    method ScopePolicyView() returns (policy: RepoScopePolicy)
      ensures fresh(policy)
      ensures forall repository :: policy.Decision(repository) == ScopeDecision(rows, repository)
    {
      policy := new RepoScopePolicy(
        Repositories(rows, Allowlist), Repositories(rows, Denylist), Repositories(rows, OptOut));
    }

    /** Splits a discovered list, in order, into eligible names and refused decisions. */
    method FilterDiscovered(repositories: seq<string>, product: string, operation: string)
      returns (allowed: seq<string>, excluded: seq<Decision>)
      ensures allowed == Eligible(Decisions(rows, repositories, product, operation))
      ensures excluded == Refused(Decisions(rows, repositories, product, operation))
    {
      hide Evaluate;
      allowed, excluded := [], [];
      ghost var decisions := Decisions(rows, repositories, product, operation);
      for i := 0 to |repositories|
        invariant allowed == Eligible(decisions[..i])
        invariant excluded == Refused(decisions[..i])
      {
        assert decisions[..i + 1][..i] == decisions[..i];
        var decision := Evaluate(rows, repositories[i], product, operation);
        if decision.allowed {
          allowed := allowed + [decision.repository];
        } else {
          excluded := excluded + [decision];
        }
      }
      assert decisions[..|repositories|] == decisions;
    }

    method InsertMigrated(key: RowKey, now: Time) returns (wrote: bool)
      requires IsNormalized(key.repository)
      modifies this
      ensures rows == WithMissing(old(rows), {key}, now)
      ensures wrote <==> key !in old(rows)
      ensures |rows| == |old(rows)| + if wrote then 1 else 0
    {
      WithMissingOne(rows, key, now);
      WroteMeansAbsent(rows, key, now);
      hide *;
      var r := InsertIfAbsent(Entry(key.repository, key.kind, MigrationRow(key.kind, now)));
      wrote := r.value;
    }

    /** Writes what one repository's claims amount to. */
    method MigrateRepository(name: string, own: seq<Claim>, now: Time)
      returns (added: nat, conflict: Option<PolicyConflict>)
      requires IsNormalized(name)
      modifies this
      ensures rows == WithMissing(old(rows), RepositoryKeys(name, own), now)
      ensures |rows| == |old(rows)| + added
      ensures RepositoryDispute(old(rows), name, own) == DisputeKey(conflict)
      ensures conflict.Some? ==> conflict.value.repository == name && conflict.value.claims == SortedByStrength(own)
    {
      hide NormalizeRepoName;
      hide FirstListing;
      hide SortedByStrength;
      hide OfKind;
      hide WithMissing;
      added, conflict := 0, None;
      var entries := SortedByStrength(own);
      var listing := FirstListing(entries);
      var distinct := set c | c in own && c.kind != Trusted :: c.kind;
      ghost var keys: set<RowKey> := {};
      WithMissingNone(rows, now);
      if listing.Some? {
        var key := RowKey(name, listing.value);
        var wrote := InsertMigrated(key, now);
        keys := {key};
        if wrote {
          added := 1;
          if |distinct| > 1 {
            conflict := Some(PolicyConflict(name, entries, listing.value));
          }
        }
      }
      if OfKind(own, Trusted) != [] {
        var key := RowKey(name, Trusted);
        var wrote := InsertMigrated(key, now);
        WithMissingTwice(old(rows), keys, {key}, now);
        keys := keys + {key};
        if wrote {
          added := added + 1;
        }
      }
      assert keys == RepositoryKeys(name, own);
    }

    /** Migrates one more repository and keeps the report up to date. */
    method MigrateNext(
      legacy: Legacy, ghost before: Table, now: Time, ghost done: set<string>, name: string, own: seq<Claim>,
      imported: nat, conflicts: seq<PolicyConflict>)
      returns (imported': nat, conflicts': seq<PolicyConflict>)
      requires name !in done && IsNormalized(name) && own == ForRepository(LegacyClaims(legacy), name)
      requires RowsSoFar(before, legacy, now, done, rows, imported) && ConflictsSoFar(before, legacy, done, conflicts)
      modifies this
      ensures RowsSoFar(before, legacy, now, done + {name}, rows, imported')
      ensures ConflictsSoFar(before, legacy, done + {name}, conflicts')
    {
      hide *;
      var added, conflict := MigrateRepository(name, own, now);
      RowsNext(before, legacy, now, done, name, old(rows), imported, rows, added);
      ConflictsNext(before, legacy, now, done, name, old(rows), imported, conflicts, conflict);
      imported' := imported + added;
      conflicts' := if conflict.Some? then conflicts + [conflict.value] else conflicts;
    }

    /** Folds the old stores into the table, one repository at a time in name order. */
    method MigrateLegacyTables(legacy: Legacy, now: Time) returns (report: MigrationReport)
      modifies this
      ensures rows == Migrated(old(rows), legacy, now)
      ensures report.imported == |AddedKeys(old(rows), legacy)|
      ensures ConflictKeys(report.conflicts) == Settled(old(rows), legacy)
      ensures |report.conflicts| == |Settled(old(rows), legacy)|
      ensures forall c :: c in report.conflicts ==>
        c.claims == SortedByStrength(ForRepository(LegacyClaims(legacy), c.repository))
      ensures report.sources == SourcesRead(legacy)
      ensures forall source :: source in report.sources <==>
        || (source == "repo_lists" && legacy.repoLists.Some?)
        || (source == "refactor_scout_repo_lists" && legacy.refactorScoutLists.Some?)
        || (source == "repo_reaper_repo_lists" && legacy.repoReaperLists.Some?)
        || (source == "repository_policies" && legacy.hiveCorePolicies.Some?)
        || (source == "suite_settings" && legacy.suiteSettings.Some?)
    {
      hide *;
      var groups := CollectClaims(legacy);
      var imported, conflicts := 0, [];
      var pending := groups.Keys;
      ghost var done: set<string> := {};
      MigrationStart(rows, legacy, now);
      while pending != {}
        invariant done + pending == groups.Keys && done !! pending
        invariant RowsSoFar(old(rows), legacy, now, done, rows, imported)
        invariant ConflictsSoFar(old(rows), legacy, done, conflicts)
        decreases pending
      {
        var name := FirstInOrder(pending);
        assert name in groups;
        GroupNormalized(groups, legacy, name);
        imported, conflicts := MigrateNext(legacy, old(rows), now, done, name, groups[name], imported, conflicts);
        pending, done := pending - {name}, done + {name};
      }
      assert done == groups.Keys;
      MigrationEnd(old(rows), legacy, now, groups, rows, imported, conflicts);
      SourcesAre(legacy);
      report := MigrationReport(imported, conflicts, SourcesRead(legacy));
    }
  }
}
