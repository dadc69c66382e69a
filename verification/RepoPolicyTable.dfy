/**
  The shared repository policy table: one row per (repository, kind), and the effect of each
  statement `repo_policy.rs` runs against it.
 */
module RepoPolicyTable {
  import opened Wrappers
  import opened Text
  import opened ScopePolicy

  type Time = nat

  datatype PolicyKind = OptOut | Denylist | Allowlist | Trusted

  function ParseKind(value: string): Option<PolicyKind> {
    var v := Lower(Trim(value));
    if v == "opt_out" || v == "opt-out" || v == "optout" then Some(OptOut)
    else if v == "denylist" || v == "blocklist" || v == "deny" then Some(Denylist)
    else if v == "allowlist" || v == "allow" then Some(Allowlist)
    else if v == "trusted" || v == "trust" then Some(Trusted)
    else None
  }

  function Strength(kind: PolicyKind): nat {
    match kind
    case OptOut => 3
    case Denylist => 2
    case Allowlist => 1
    case Trusted => 0
  }

  datatype RowKey = RowKey(repository: string, kind: PolicyKind)

  datatype Row = Row(source: string, notes: string, verified: bool, updatedAt: Time)

  datatype Entry = Entry(repository: string, kind: PolicyKind, row: Row)

  type Table = map<RowKey, Row>

  /** The rows an opt-out authority owns. */
  predicate IsVerifiedOptOut(key: RowKey, row: Row) {
    key.kind == OptOut && row.verified
  }

  /** `INSERT .. ON CONFLICT DO UPDATE`, whose `CASE` arms leave a verified opt-out as it is. */
  function Upserted(table: Table, entry: Entry): Table {
    match NormalizeRepoName(entry.repository)
    case None => table
    case Some(name) =>
      var key := RowKey(name, entry.kind);
      if key in table && IsVerifiedOptOut(key, table[key]) then table else table[key := entry.row]
  }

  /** `INSERT OR IGNORE`. */
  function InsertedIfAbsent(table: Table, entry: Entry): Table {
    match NormalizeRepoName(entry.repository)
    case None => table
    case Some(name) =>
      var key := RowKey(name, entry.kind);
      if key in table then table else table[key := entry.row]
  }

  function Removed(table: Table, repository: string, kind: PolicyKind): Table {
    match NormalizeRepoName(repository)
    case None => table
    case Some(name) =>
      var key := RowKey(name, kind);
      if key in table && !IsVerifiedOptOut(key, table[key]) then table - {key} else table
  }

  /** `DELETE .. WHERE repository = ? AND kind <> 'opt_out'`. */
  function ListingsRemoved(table: Table, repository: string): Table {
    match NormalizeRepoName(repository)
    case None => table
    case Some(name) => table - {RowKey(name, Denylist), RowKey(name, Allowlist), RowKey(name, Trusted)}
  }

  /** The kinds an operator may clear for every repository at once; opt-outs are not among them. */
  type ListingKinds = kinds: set<PolicyKind> | OptOut !in kinds

  /** `DELETE .. WHERE kind IN ..`. */
  function Cleared(table: Table, kinds: ListingKinds): Table {
    map key | key in table && key.kind !in kinds :: table[key]
  }

  function ListingEntry(name: string, kind: PolicyKind, source: string, now: Time): Entry {
    Entry(name, kind, Row(source, "", false, now))
  }

  function ListingRecorded(table: Table, repository: string, listType: string, source: string, now: Time): Table {
    match (NormalizeRepoName(repository), ParseKind(listType))
    case (Some(name), Some(kind)) => Upserted(table, ListingEntry(name, kind, source, now))
    case _ => table
  }

  /** May an authority's assertion replace the opt-out row that is there? */
  predicate AcceptsAssertion(row: Row, source: string, updatedAt: Time) {
    !row.verified || (row.source == source && row.updatedAt <= updatedAt)
  }

  function VerifiedAsserted(table: Table, repository: string, source: string, notes: string, updatedAt: Time): Table {
    match NormalizeRepoName(repository)
    case None => table
    case Some(name) =>
      var key := RowKey(name, OptOut);
      if key in table && !AcceptsAssertion(table[key], source, updatedAt) then table
      else table[key := Row(source, notes, true, updatedAt)]
  }

  /** May an authority's revocation delete this opt-out row? */
  predicate AcceptsRevocation(row: Row, source: string, updatedAt: Time) {
    row.verified && row.source == source && row.updatedAt <= updatedAt
  }

  function VerifiedRevoked(table: Table, repository: string, source: string, updatedAt: Time): Table {
    match NormalizeRepoName(repository)
    case None => table
    case Some(name) =>
      var key := RowKey(name, OptOut);
      if key in table && AcceptsRevocation(table[key], source, updatedAt) then table - {key} else table
  }

  // ---------------------------------------------------------------------------------------
  // Legacy per-product lists, as the migration reads them.

  datatype HiveCoreRow = HiveCoreRow(repository: string, trusted: bool, excluded: bool)

  /** The old stores; a table that does not exist is `None`. */
  datatype Legacy = Legacy(
    repoLists: Option<seq<(string, string)>>,
    refactorScoutLists: Option<seq<(string, string)>>,
    repoReaperLists: Option<seq<(string, string)>>,
    hiveCorePolicies: Option<seq<HiveCoreRow>>,
    suiteSettings: Option<Option<(string, string)>>)

  datatype Claim = Claim(repository: string, source: string, kind: PolicyKind)

  function ListRowClaims(source: string, row: (string, string)): seq<Claim> {
    match (NormalizeRepoName(row.0), ParseKind(row.1))
    case (Some(name), Some(kind)) => [Claim(name, source, kind)]
    case _ => []
  }

  function HiveCoreRowClaims(row: HiveCoreRow): seq<Claim> {
    match NormalizeRepoName(row.repository)
    case None => []
    case Some(name) =>
      (if row.excluded then [Claim(name, "repository_policies", Denylist)] else [])
      + (if row.trusted then [Claim(name, "repository_policies", Trusted)] else [])
  }

  function CandidateClaims(candidate: string, kind: PolicyKind): seq<Claim> {
    match NormalizeRepoName(candidate)
    case None => []
    case Some(name) => [Claim(name, "suite_settings", kind)]
  }

  function ListClaims(source: string, rows: seq<(string, string)>): seq<Claim> {
    if rows == [] then []
    else ListClaims(source, rows[..|rows| - 1]) + ListRowClaims(source, rows[|rows| - 1])
  }

  function HiveCoreClaims(rows: seq<HiveCoreRow>): seq<Claim> {
    if rows == [] then []
    else HiveCoreClaims(rows[..|rows| - 1]) + HiveCoreRowClaims(rows[|rows| - 1])
  }

  function TextClaims(candidates: seq<string>, kind: PolicyKind): seq<Claim> {
    if candidates == [] then []
    else TextClaims(candidates[..|candidates| - 1], kind) + CandidateClaims(candidates[|candidates| - 1], kind)
  }

  function OptionalListClaims(source: string, rows: Option<seq<(string, string)>>): seq<Claim> {
    match rows
    case None => []
    case Some(rows) => ListClaims(source, rows)
  }

  function SettingsClaims(settings: Option<Option<(string, string)>>): seq<Claim> {
    match settings
    case Some(Some(lists)) =>
      TextClaims(SplitBy(lists.0, IsListSeparator), Allowlist) + TextClaims(SplitBy(lists.1, IsListSeparator), Denylist)
    case _ => []
  }

  /** Every claim the old stores make, in the order they are read. */
  function LegacyClaims(legacy: Legacy): seq<Claim> {
    OptionalListClaims("repo_lists", legacy.repoLists)
    + OptionalListClaims("refactor_scout_repo_lists", legacy.refactorScoutLists)
    + OptionalListClaims("repo_reaper_repo_lists", legacy.repoReaperLists)
    + (match legacy.hiveCorePolicies case None => [] case Some(rows) => HiveCoreClaims(rows))
    + SettingsClaims(legacy.suiteSettings)
  }

  /** What was claimed, forgetting by whom, how often and in which order. */
  function ClaimKeys(claims: seq<Claim>): set<RowKey> {
    set c | c in claims :: RowKey(c.repository, c.kind)
  }

  /** A claim no other listing claim for the same repository outranks. */
  ghost predicate IsStrongest(keys: set<RowKey>, key: RowKey) {
    && key in keys && key.kind != Trusted
    && forall other :: other in keys && other.repository == key.repository ==>
      Strength(other.kind) <= Strength(key.kind)
  }

  /** The rows a migration wants to exist: the strongest listing per repository, and trust beside it. */
  ghost function MigrationKeys(keys: set<RowKey>): set<RowKey> {
    set key | key in keys && (key.kind == Trusted || IsStrongest(keys, key))
  }

  function MigrationRow(kind: PolicyKind, now: Time): Row {
    Row("migration",
        if kind == Trusted then "Imported from HiveCore repository policies."
        else "Imported from a per-product repo list.",
        false, now)
  }

  function WithMissing(table: Table, keys: set<RowKey>, now: Time): Table {
    table + map key | key in keys && key !in table :: MigrationRow(key.kind, now)
  }

  ghost function Migrated(table: Table, legacy: Legacy, now: Time): Table {
    WithMissing(table, MigrationKeys(ClaimKeys(LegacyClaims(legacy))), now)
  }
}
