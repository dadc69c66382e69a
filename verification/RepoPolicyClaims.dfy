/** What the old per-product stores claim, row by row and flag by flag, and what the migration makes of it. */
module RepoPolicyClaims {
  import opened Wrappers
  import opened Text
  import opened ScopePolicy
  import opened RepoPolicyTable
  import opened RepoPolicy
  import opened RepoPolicyMigration
  import opened RepoPolicyStatements

  predicate RowNames(row: (string, string), name: string, words: set<string>) {
    NormalizeRepoName(row.0) == Some(name) && Word(row.1) in words
  }

  /** Some row of an old list names the repository under one of these words. */
  ghost predicate ListNames(rows: Option<seq<(string, string)>>, name: string, words: set<string>) {
    rows.Some? && exists i :: 0 <= i < |rows.value| && RowNames(rows.value[i], name, words)
  }

  /** Some row of HiveCore's old table excludes the repository. */
  ghost predicate HiveCoreExcludes(legacy: Legacy, name: string) {
    legacy.hiveCorePolicies.Some?
    && exists row ::
         row in legacy.hiveCorePolicies.value && NormalizeRepoName(row.repository) == Some(name) && row.excluded
  }

  ghost predicate HiveCoreTrusts(legacy: Legacy, name: string) {
    legacy.hiveCorePolicies.Some?
    && exists row ::
         row in legacy.hiveCorePolicies.value && NormalizeRepoName(row.repository) == Some(name) && row.trusted
  }

  /** The free text spells the repository in one of its parts. */
  ghost predicate TextSpells(text: string, name: string) {
    exists part :: part in SplitBy(text, IsListSeparator) && NormalizeRepoName(part) == Some(name)
  }

  ghost predicate ListedBy(legacy: Legacy, source: string, name: string, words: set<string>) {
    || (source == "repo_lists" && ListNames(legacy.repoLists, name, words))
    || (source == "refactor_scout_repo_lists" && ListNames(legacy.refactorScoutLists, name, words))
    || (source == "repo_reaper_repo_lists" && ListNames(legacy.repoReaperLists, name, words))
  }

  lemma {:induction false} ListClaimsMembers(source: string, rows: seq<(string, string)>, c: Claim)
    ensures c in ListClaims(source, rows)
      <==> c.source == source && ListNames(Some(rows), c.repository, WordsFor(c.kind))
  {
    hide NormalizeRepoName, ParseKind, Word, WordsFor;
    if rows == [] {
    } else {
      var n := |rows| - 1;
      ListClaimsMembers(source, rows[..n], c);
      ParsedExactlyWhenSpelled(rows[n].1, c.kind);
      assert forall i :: 0 <= i < n ==> rows[..n][i] == rows[i];
      assert c in ListRowClaims(source, rows[n])
        <==> c.source == source && RowNames(rows[n], c.repository, WordsFor(c.kind));
      hide ListRowClaims, RowNames;
      var words := WordsFor(c.kind);
      assert ListNames(Some(rows), c.repository, words) <==>
        ListNames(Some(rows[..n]), c.repository, words) || RowNames(rows[n], c.repository, words);
    }
  }

  predicate RowFlags(row: HiveCoreRow, c: Claim) {
    NormalizeRepoName(row.repository) == Some(c.repository)
    && ((c.kind == Denylist && row.excluded) || (c.kind == Trusted && row.trusted))
  }

  ghost predicate RowsFlag(rows: seq<HiveCoreRow>, c: Claim) {
    exists row :: row in rows && RowFlags(row, c)
  }

  lemma RowClaimsMembers(row: HiveCoreRow, c: Claim)
    ensures c in HiveCoreRowClaims(row) <==> c.source == "repository_policies" && RowFlags(row, c)
  {
    hide NormalizeRepoName;
  }

  lemma {:induction false} HiveCoreClaimsMembers(rows: seq<HiveCoreRow>, c: Claim)
    ensures c in HiveCoreClaims(rows) <==> c.source == "repository_policies" && RowsFlag(rows, c)
  {
    hide RowFlags, HiveCoreRowClaims;
    if rows == [] {
    } else {
      var n := |rows| - 1;
      HiveCoreClaimsMembers(rows[..n], c);
      RowClaimsMembers(rows[n], c);
      assert rows == rows[..n] + [rows[n]];
    }
  }

  lemma {:induction false} TextClaimsMembers(candidates: seq<string>, kind: PolicyKind, c: Claim)
    ensures c in TextClaims(candidates, kind)
      <==> c.source == "suite_settings" && c.kind == kind
           && exists part :: part in candidates && NormalizeRepoName(part) == Some(c.repository)
  {
    hide NormalizeRepoName;
    if candidates == [] {
    } else {
      var n := |candidates| - 1;
      TextClaimsMembers(candidates[..n], kind, c);
      assert candidates == candidates[..n] + [candidates[n]];
    }
  }

  lemma OptionalMembers(source: string, rows: Option<seq<(string, string)>>, c: Claim)
    ensures c in OptionalListClaims(source, rows)
      <==> c.source == source && ListNames(rows, c.repository, WordsFor(c.kind))
  {
    hide ListClaims, RowNames;
    if rows.Some? {
      ListClaimsMembers(source, rows.value, c);
    }
  }

  lemma SettingsMembers(settings: Option<Option<(string, string)>>, c: Claim)
    ensures c in SettingsClaims(settings)
      <==> c.source == "suite_settings" && settings.Some? && settings.value.Some?
           && ((c.kind == Allowlist && TextSpells(settings.value.value.0, c.repository))
               || (c.kind == Denylist && TextSpells(settings.value.value.1, c.repository)))
  {
    hide NormalizeRepoName, SplitBy, TextClaims;
    if settings.Some? && settings.value.Some? {
      var lists := settings.value.value;
      TextClaimsMembers(SplitBy(lists.0, IsListSeparator), Allowlist, c);
      TextClaimsMembers(SplitBy(lists.1, IsListSeparator), Denylist, c);
    }
  }

  /**
    An old store claims exactly what its rows say: a list row its word, HiveCore's flags a denial and trust,
    and the two texts of the settings an allowance and a denial.
   */
  lemma ClaimedExactlyWhen(legacy: Legacy, c: Claim)
    ensures c in LegacyClaims(legacy) <==>
      || ListedBy(legacy, c.source, c.repository, WordsFor(c.kind))
      || (c.source == "repository_policies" && c.kind == Denylist && HiveCoreExcludes(legacy, c.repository))
      || (c.source == "repository_policies" && c.kind == Trusted && HiveCoreTrusts(legacy, c.repository))
      || (c.source == "suite_settings" && legacy.suiteSettings.Some? && legacy.suiteSettings.value.Some?
          && ((c.kind == Allowlist && TextSpells(legacy.suiteSettings.value.value.0, c.repository))
              || (c.kind == Denylist && TextSpells(legacy.suiteSettings.value.value.1, c.repository))))
  {
    hide NormalizeRepoName, OptionalListClaims, SettingsClaims, HiveCoreClaims, ListNames, TextSpells, WordsFor;
    OptionalMembers("repo_lists", legacy.repoLists, c);
    OptionalMembers("refactor_scout_repo_lists", legacy.refactorScoutLists, c);
    OptionalMembers("repo_reaper_repo_lists", legacy.repoReaperLists, c);
    SettingsMembers(legacy.suiteSettings, c);
    if legacy.hiveCorePolicies.Some? {
      HiveCoreClaimsMembers(legacy.hiveCorePolicies.value, c);
    }
  }

  /** A repository that any old list denies or opts out, under any word for it, is excluded after the migration. */
  lemma OldRowExcludes(table: Table, legacy: Legacy, now: Time, source: string, name: string)
    requires ListedBy(legacy, source, name, {"denylist", "blocklist", "deny"})
      || ListedBy(legacy, source, name, {"opt_out", "opt-out", "optout"})
    ensures Excluded(Migrated(table, legacy, now), name)
  {
    hide ListNames, LegacyClaims, Excluded, Migrated, ListedBy;
    var kind := if ListedBy(legacy, source, name, {"opt_out", "opt-out", "optout"}) then OptOut else Denylist;
    ClaimedExactlyWhen(legacy, Claim(name, source, kind));
    ExclusionsSurviveMigration(table, legacy, now, Claim(name, source, kind));
  }

  /** So is one that HiveCore's old table excludes, or whose name the denial text spells. */
  lemma OldExclusionBinds(table: Table, legacy: Legacy, now: Time, name: string)
    requires HiveCoreExcludes(legacy, name)
      || (legacy.suiteSettings.Some? && legacy.suiteSettings.value.Some?
        && TextSpells(legacy.suiteSettings.value.value.1, name))
    ensures Excluded(Migrated(table, legacy, now), name)
  {
    hide ListNames, LegacyClaims, Excluded, Migrated, ListedBy, HiveCoreExcludes, TextSpells;
    var source := if HiveCoreExcludes(legacy, name) then "repository_policies" else "suite_settings";
    ClaimedExactlyWhen(legacy, Claim(name, source, Denylist));
    ExclusionsSurviveMigration(table, legacy, now, Claim(name, source, Denylist));
  }

  lemma ClaimedKinds(legacy: Legacy, name: string)
    ensures forall kind :: RowKey(name, kind) in ClaimKeys(LegacyClaims(legacy)) <==> Claimed(legacy, name, kind)
    ensures forall other: RowKey :: other.repository == name ==> other == RowKey(name, other.kind)
  {
    hide LegacyClaims;
    ClaimedKeys(legacy);
    hide Claimed, ClaimKeys;
    forall kind
      ensures RowKey(name, kind) in ClaimKeys(LegacyClaims(legacy)) <==> Claimed(legacy, name, kind)
    {
      assert RowKey(name, kind).repository == name && RowKey(name, kind).kind == kind;
    }
  }

  lemma WantedExactly(legacy: Legacy, key: RowKey)
    ensures var name := key.repository;
      key in MigrationKeys(ClaimKeys(LegacyClaims(legacy))) <==>
        match key.kind
        case OptOut => Claimed(legacy, name, OptOut)
        case Denylist => Claimed(legacy, name, Denylist) && !Claimed(legacy, name, OptOut)
        case Allowlist =>
          Claimed(legacy, name, Allowlist) && !Claimed(legacy, name, Denylist) && !Claimed(legacy, name, OptOut)
        case Trusted => Claimed(legacy, name, Trusted)
  {
    ClaimedKinds(legacy, key.repository);
    hide LegacyClaims, Claimed, ClaimKeys;
  }

  /**
    On any table the migration adds an opt-out wherever one is claimed, a denial where one is claimed and no
    opt-out, an allowance where nothing stronger is claimed, and trust wherever it is claimed; all unverified.
   */
  lemma MigrationWritesExactly(table: Table, legacy: Legacy, now: Time, key: RowKey)
    requires key !in table
    ensures var after, name := Migrated(table, legacy, now), key.repository;
      && (key in after <==>
            match key.kind
            case OptOut => Claimed(legacy, name, OptOut)
            case Denylist => Claimed(legacy, name, Denylist) && !Claimed(legacy, name, OptOut)
            case Allowlist =>
              Claimed(legacy, name, Allowlist) && !Claimed(legacy, name, Denylist) && !Claimed(legacy, name, OptOut)
            case Trusted => Claimed(legacy, name, Trusted))
      && (key in after ==>
            after[key] == Row(
              "migration",
              if key.kind == Trusted then "Imported from HiveCore repository policies."
              else "Imported from a per-product repo list.",
              false, now))
  {
    WantedExactly(legacy, key);
    hide LegacyClaims, ClaimKeys, MigrationKeys, Claimed;
  }

  /**
    A dispute is reported exactly where a listing is written over a weaker one: an opt-out beside a denial or an
    allowance, or a denial beside an allowance.
   */
  lemma SettledExactly(table: Table, legacy: Legacy, key: RowKey)
    ensures key in Settled(table, legacy) <==>
      && key !in table
      && match key.kind
         case OptOut =>
           && Claimed(legacy, key.repository, OptOut)
           && (Claimed(legacy, key.repository, Denylist) || Claimed(legacy, key.repository, Allowlist))
         case Denylist =>
           && Claimed(legacy, key.repository, Denylist) && Claimed(legacy, key.repository, Allowlist)
           && !Claimed(legacy, key.repository, OptOut)
         case Allowlist => false
         case Trusted => false
  {
    ClaimedKinds(legacy, key.repository);
    hide LegacyClaims, Claimed, ClaimKeys;
  }
}
