# PatchHive: verified models of its stateful kernels

PatchHive is a suite of repository-maintenance products that share one database, one set of `.env` files
and one policy about which repositories they may touch. Most of its code moves data between HTTP, SQLite
and Docker; this project models the small stateful kernels underneath and proves what they guarantee
over whole runs.

- **Shared repository policy** (`ScopePolicy`, `RepoNames`, `RepoPolicyTable`, `RepoPolicy`,
  `RepoPolicyStatements`, `RepoPolicyMigration`, `RepoPolicyClaims`, `RepoPolicyStore`,
  `HiveCorePolicies`). One table of rows keyed by repository and kind, changed by nine operations, each
  with its own conflict clause. Each SQL statement is a function on the table; the methods of
  `RepoPolicyStore` update the table in place and are proved to compute those functions. On top: a
  verified opt-out binds every product through every run until its own authority ends it, the evaluator
  and the set-based view agree on every reachable table, and the migration of the old per-product lists
  depends only on what was claimed.
- **Opt-outs from end to end** (`OptOutRegistry`, `OptOutSync`). The public registry, whose table is the
  replay of its event log, and HiveCore's polls of its feed. Polls may be stale, repeated or out of
  order and mixed with operator edits; the store converges to the registry exactly when no assertion the
  feed ever showed is newer than the registry's last word.
- **Private files and `.env` editing** (`PrivateFile`, `EnvFile`, `EnvText`, `PrivateEnvFile`,
  `LauncherEnv`). The lock, read, transform, write, rename protocol as interleaved steps of any number
  of processes and threads, with errors, panics and deaths at any step; the line editor and the reader
  as functions on text; and the two together.
- **Rate limiter** (`RateLimit`). Lazily pruned and occasionally swept queues refine the full log of
  admitted requests.
- **Schedules** (`Scheduling`, `ScheduleRuns`, `ScheduleRaces`, `ScheduleDraining`, `ScheduleEvidence`,
  `ScheduleStatements`). Save, claim, record and delete under a clock, with the read and the write of a
  save as separate steps, and the stored execution state that is decoded again.
- **Approvals** (`CanonicalJson`, `Approvals`). Canonical JSON as a complete normal form, and the
  fingerprints built on it.
- **Connection pool** (`SqlitePool`) and **pagination** (`Pagination`, `ReviewThreads`): the fetch loops
  against arbitrary servers, and against servers of one list.
- `Text`, `Ordering` and `Numbers` hold the string operations, the byte order and the arithmetic these
  share; `Wrappers` holds `Option` and `Result`.

Where the source changes state, a class with the same fields does so here, and its methods state the
whole new state by a specification function. The lemmas are about those functions. SQLite tables are
maps, statements and transactions are atomic steps, clock readings are parameters, and the hash is an
injective function.

Run `dafny verify dfyconfig.toml` to check everything.

## What came out

Properties the source's comments or shape suggest, but which hold only under a condition. The code is
modelled as it is; for each there is the exact condition and an input on which it fails.

- `remove_listings` is documented to remove every operator-owned listing. It also keeps opt-outs an
  operator entered (`RemoveListingsLeavesOperatorOptOut`, `RemoveListingsCounterexample`).
- HiveCore's settings form is documented as a view in which nothing can drift. Saving it as shown keeps
  the lists exactly when no listed name holds one of the separators, which the stores accept in names
  (`SavingWhatIsShownExactlyWhen`, `CommaIsAccepted`).
- Claims of one schedule are an hour apart when each save's read and write are not disturbed. `save`
  reads, takes the clock and writes without a transaction; a claim in between can be overtaken, and then
  the schedule is claimed twice within the hour. The spacing holds exactly when no write of a save
  overtakes a claim (`SpacingExactlyWhen`, `ClaimsHourApart`, `StaleSaveReclaims`); two runs show how it
  fails (`KeptPlaceIsClaimedTwice`, `EarlyClockIsClaimedTwice`).
- `retry_after` is rounded down, so a caller that waits exactly as long as it was told can be refused
  again (`RetryAfterAsAdvertised`, `ObeyingRetryAfterCanFail`); one second more is always enough.
- Numbered paging shrinks `per_page` on the last page while `page` keeps counting. For a limit above one
  hundred that is not a multiple of it, some items are fetched twice and others not at all
  (`FetchedIsPrefixExactlyWhen`, `FetchOf150`).
- The checks that cursors advance notice a cursor repeated at once, exactly, but not two that alternate
  (`CommentErrorsExactlyWhen`, `ThreadErrorsExactlyWhen`, `AlternatingCursorsGoUnnoticed`).
- The `.env` editor does not recognise `KEY = value`, but the reader does, so such a line goes on
  answering for the key after an edit (`ReadsBackExactlyWhen`, `ShadowExactlyWhen`,
  `SpacedAssignmentShadows`).
- An error from `update_private_text_file` does not mean nothing was written: a call that ended badly
  has committed exactly when its rename happened (`TargetIsFoldOfCommits`, `FailureAfterRename`).
- A credential form with a refused value or a failing update keeps the edits made before it
  (`FormChangesNothingExactlyWhen`, `RefusedFormChangesKeys`).
- A completed outcome that is one of six reserved words does not decode to what was recorded
  (`RecordedDecodesExactlyWhen`, `IdleOutcomeIsUnknown`).
- A revocation is committed before its row is read back over a second connection. When that one is
  refused, exactly when all others of the pool are taken and so always in a pool of one, the revocation
  stands and an error is returned (`RevokeRepositoryOptOut`, `ReadBackRefusedExactlyWhen`).
- The registry reads the clock before it waits for its connection, so operations can commit out of the
  order of their times. A store that has polled an opt-out never hears of a revocation that carries an
  earlier time. It converges exactly when no assertion the feed ever showed is newer than the registry's
  last word, in particular when the operations on each repository commit in clock order
  (`SyncConvergesExactlyWhen`, `SyncConverges`, `LateRevocationNeverArrives`).
- A stored opt-out outlasts all polls exactly when the registry never showed the repository revoked at
  its time or later. A renewal is lifted by a stale poll of the revocation before it when its time is
  not later, equal times included (`StaysOptedOutExactlyWhen`, `RenewalLiftedExactlyWhen`,
  `SharedTimestampLiftsOptOut`).
- The migration is documented to change nothing when run again. That holds at once; but the old tables
  stay and every start reads them, so a row an operator removes comes back exactly when they still ask
  for it (`RemovalOutlastsRestartExactlyWhen`, `RemovedTrustReturns`).

## Model

| member | source | states |
|---|---|---|
| ScopePolicy.NormalizeIdempotent | crates/patchhive-product-core/src/scope_policy.rs:123-136 | normalising a normalised name gives it back, so a stored name is its own lookup key |
| ScopePolicy.NormalizeIgnoresCase | crates/patchhive-product-core/src/scope_policy.rs:123-136 | casing cannot make two names of one repository |
| RepoNames.AcceptedExactlyWhen | crates/patchhive-product-core/src/scope_policy.rs:123-136 | a name is accepted if and only if exactly two of the pieces between its slashes hold more than white space; it is stored as those two, trimmed and lower-cased, with one slash between |
| ScopePolicy.NormalizeSetFixed | crates/patchhive-product-core/src/scope_policy.rs:159-164 | a set of stored names passes through the policy constructor unchanged |
| ScopePolicy.ListedAsMembers | crates/patchhive-product-core/src/scope_policy.rs:79-95 | a name is in a list exactly when some row spells it and carries that list's type; bad rows are skipped |
| RepoNames.NormalizeSetMembers | crates/patchhive-product-core/src/scope_policy.rs:159-164 | a set given to a policy is read name by name, and what is no name is dropped |
| RepoNames.RowsDecide | crates/patchhive-product-core/src/scope_policy.rs:79-157 | a list editor's rows opt out, deny or allow a repository under the words for each list and no others, an opt-out before a denial |
| ScopePolicy.RepoScopePolicy.FromEntries | crates/patchhive-product-core/src/scope_policy.rs:79-95 | the three sets are exactly the names listed under each type |
| ScopePolicy.RepoScopePolicy.Insert | crates/patchhive-product-core/src/scope_policy.rs:97-112 | adds the normalised name to the one set of its type and leaves the other two; an invalid name changes nothing |
| RepoPolicy.DecisionExplained | crates/patchhive-product-core/src/repo_policy.rs:297-414 | each step of a decision's chain is true of the table and about the next rule of precedence; allowed exactly when the chain reaches the last rule unopposed; trust is reported except under an opt-out |
| RepoPolicyStatements.AllowedExactlyWhen | crates/patchhive-product-core/src/repo_policy.rs:285-414 | allowed if and only if the name is valid, neither opted out nor denied, on the allowlist if there is one, and trusted if the operation is one of the three that need it |
| RepoPolicyStatements.ReasonsAgree | crates/patchhive-product-core/src/scope_policy.rs:138-157 | the set-based view refuses for the same reason as the evaluator, reason by reason |
| RepoPolicy.ListedExclusionBinds | crates/patchhive-product-core/src/repo_policy.rs:297-358 | an opt-out or denial row excludes the repository for every product, operation and spelling of the name |
| RepoPolicy.StepKeepsOptOut | crates/patchhive-product-core/src/repo_policy.rs:140-255 | one store operation, migration and bulk clearing included, ends a verified opt-out (or changes its source, or lowers its time) if and only if it is a revocation by the same source, not older than the row |
| RepoPolicy.OptOutBindsRuns | crates/patchhive-product-core/src/repo_policy.rs:140-255 | through any run without such a revocation the opt-out keeps its source, never gets older, and excludes the repository from everything |
| RepoPolicy.DeliveriesKeepLatest | crates/patchhive-product-core/src/repo_policy.rs:213-234 | whatever the order of an authority's assertions, the newest is what is stored |
| RepoPolicy.DeliveryOrderIrrelevant | crates/patchhive-product-core/src/repo_policy.rs:213-234 | with distinct timestamps the stored row does not depend on delivery order |
| RepoPolicy.RunKeepsNormalized | crates/patchhive-product-core/src/repo_policy.rs:140-255 | every operation stores only normalised names, in every run |
| RepoPolicy.EvaluatorsAgree | crates/patchhive-product-core/src/repo_policy.rs:285-494 | on every reachable table a repository is allowed if and only if the set-based policy allows it and any trust the operation needs is there |
| RepoPolicy.DiscoveryIsPartitioned | crates/patchhive-product-core/src/repo_policy.rs:416-438 | the positions of a discovered list split into two increasing lists, of the names passed on and of the refusals, each standing for its own decision |
| RepoPolicy.EligibleIsUnlisted | crates/patchhive-product-core/src/repo_policy.rs:416-438 | no opted-out or denied repository is passed on |
| RepoPolicy.RemoveListingsLeavesOperatorOptOut | crates/patchhive-product-core/src/repo_policy.rs:525-538 | removing listings leaves no operator-owned row if and only if the repository has no unverified opt-out |
| RepoPolicy.RemoveListingsCounterexample | crates/patchhive-product-core/src/repo_policy.rs:525-538 | an operator's own opt-out survives the removal, contrary to the documentation |
| RepoPolicyStatements.UpsertExactly | crates/patchhive-product-core/src/repo_policy.rs:140-167 | the row is written unless a verified opt-out stands in its place |
| RepoPolicyStatements.RemoveExactly | crates/patchhive-product-core/src/repo_policy.rs:195-207 | the row goes unless it is a verified opt-out |
| RepoPolicyStatements.ListingExactly | crates/patchhive-product-core/src/repo_policy.rs:501-523 | a listing is written, unverified, under the kind its word names and no other; an unknown word writes nothing |
| RepoPolicyStatements.ListingBinds | crates/patchhive-product-core/src/repo_policy.rs:501-523 | listing a repository under any word for a denial or an opt-out excludes it from everything |
| RepoPolicyStatements.ParsersAgreeExactlyWhen | crates/patchhive-product-core/src/repo_policy.rs:42-50 | the list editor and the store read the same words the same way, and the store alone knows four more |
| RepoPolicyStatements.AssertionExactly | crates/patchhive-product-core/src/repo_policy.rs:213-234 | an assertion is stored unless a verified row of another source, or a newer one, stands there |
| RepoPolicyStatements.RevocationExactly | crates/patchhive-product-core/src/repo_policy.rs:238-255 | a revocation deletes exactly a verified row of the same source that is not newer |
| RepoPolicyMigration.SortedByStrengthIsSort | crates/patchhive-product-core/src/repo_policy.rs:687 | the sort of the claims is a permutation in descending strength |
| RepoPolicyMigration.FirstListingIsStrongest | crates/patchhive-product-core/src/repo_policy.rs:686-695 | the listing taken for a repository is the strongest one claimed for it, and there is one exactly when a listing was claimed |
| RepoPolicyMigration.MigrationOrderIrrelevant | crates/patchhive-product-core/src/repo_policy.rs:590-753 | result and settled disputes depend only on which kinds were claimed for which repository, not on order, repetition or source |
| RepoPolicyMigration.MigrationOnlyAdds | crates/patchhive-product-core/src/repo_policy.rs:703-750 | existing rows are untouched; the added rows are exactly the missing strongest listings and trust rows |
| RepoPolicyMigration.MigrationIdempotent | crates/patchhive-product-core/src/repo_policy.rs:581-590 | a second run at once changes nothing, adds nothing and settles no dispute |
| RepoPolicyMigration.MissingRowReturnsExactlyWhen | crates/patchhive-product-core/src/repo_policy.rs:590-753 | on any table a missing row is written if and only if the old stores make it a strongest listing or claim trust |
| RepoPolicyMigration.RemovalOutlastsRestartExactlyWhen | crates/patchhive-product-core/src/repo_policy.rs:448-467 | a row an operator removes stays away at the next start if and only if the old stores do not ask for it |
| RepoPolicyMigration.RemovedTrustReturns | crates/patchhive-product-core/src/repo_policy.rs:735-750 | trust that was taken away comes back while an old store claims it |
| RepoPolicyMigration.MigrationIsInserts | crates/patchhive-product-core/src/repo_policy.rs:703-750 | a migration is a run of insertions of unverified rows, so what holds over runs holds when other operations come between them |
| RepoPolicyMigration.ExclusionsSurviveMigration | crates/patchhive-product-core/src/repo_policy.rs:581-590 | whatever the table held, a repository any old store excluded is excluded afterwards |
| RepoPolicyClaims.ClaimedExactlyWhen | crates/patchhive-product-core/src/repo_policy.rs:596-683 | the old stores claim exactly what their rows say: a list row its word, HiveCore's flags a denial and trust, the two texts an allowance and a denial |
| RepoPolicyClaims.OldRowExcludes | crates/patchhive-product-core/src/repo_policy.rs:609-621 | a repository any old list denies or opts out, under any word for it, is excluded after the migration |
| RepoPolicyClaims.OldExclusionBinds | crates/patchhive-product-core/src/repo_policy.rs:624-683 | so is one that HiveCore's old table excludes or the denial text spells |
| RepoPolicyClaims.MigrationWritesExactly | crates/patchhive-product-core/src/repo_policy.rs:686-750 | the missing rows added: an opt-out where claimed, a denial where claimed without one, an allowance where nothing stronger is claimed, trust where claimed; all unverified, with their source and note |
| RepoPolicyClaims.SettledExactly | crates/patchhive-product-core/src/repo_policy.rs:686-750 | a dispute is settled if and only if a missing opt-out is written beside a claimed denial or allowance, or a missing denial beside a claimed allowance |
| RepoPolicyMigration.DistinctMeansDisputed | crates/patchhive-product-core/src/repo_policy.rs:697-732 | counting distinct listing kinds detects exactly the repositories with two different listings |
| RepoPolicyStore.RepoPolicyStore.Upsert | crates/patchhive-product-core/src/repo_policy.rs:140-167 | the row is replaced unless it is a verified opt-out, which stays; only an invalid name is an error |
| RepoPolicyStore.RepoPolicyStore.InsertIfAbsent | crates/patchhive-product-core/src/repo_policy.rs:174-193 | adds a missing row, keeps an existing one, and reports whether it wrote |
| RepoPolicyStore.RepoPolicyStore.Remove | crates/patchhive-product-core/src/repo_policy.rs:195-207 | removes the row unless it is a verified opt-out; reports whether the table changed |
| RepoPolicyStore.RepoPolicyStore.RemoveListings | crates/patchhive-product-core/src/repo_policy.rs:529-538 | removes every row of the repository but opt-outs, and counts them |
| RepoPolicyStore.RepoPolicyStore.RecordListing | crates/patchhive-product-core/src/repo_policy.rs:501-523 | an upsert of an unverified listing, which it returns; an unknown list type or bad name is an error that changes nothing |
| RepoPolicyStore.RepoPolicyStore.UpsertVerifiedOptOut | crates/patchhive-product-core/src/repo_policy.rs:213-234 | replaces an unverified row or an older one of the same source, and only those; the flag says whether the clause let the write through |
| RepoPolicyStore.RepoPolicyStore.RevokeVerifiedOptOut | crates/patchhive-product-core/src/repo_policy.rs:238-255 | deletes exactly a verified row of the same source that is not newer |
| RepoPolicyStore.RepoPolicyStore.FilterDiscovered | crates/patchhive-product-core/src/repo_policy.rs:421-438 | the loop's two lists are the eligible names and the refusals, in order |
| RepoPolicyStore.RepoPolicyStore.ScopePolicyView | crates/patchhive-product-core/src/repo_policy.rs:480-494 | the policy object decides every name as the set-based view of the table does |
| RepoPolicyStore.CollectClaims | crates/patchhive-product-core/src/repo_policy.rs:593-683 | the loops over the old tables group exactly their claims, in reading order, by repository |
| RepoPolicyStore.RepoPolicyStore.MigrateRepository | crates/patchhive-product-core/src/repo_policy.rs:686-750 | writes the strongest listing and trust if missing, counts them, and reports a conflict exactly when it wrote a disputed listing |
| RepoPolicyStore.RepoPolicyStore.MigrateLegacyTables | crates/patchhive-product-core/src/repo_policy.rs:590-753 | the table becomes the specified one, `imported` is the number of added rows, and the conflicts are exactly the disputes settled, one each |
| HiveCorePolicies.SaveRepoListText | products/hive-core/backend/src/db.rs:3090-3128 | the settings form is one clearing of the two lists and an upsert per name its fields spell |
| HiveCorePolicies.TextSavedExactly | products/hive-core/backend/src/db.rs:3085-3128 | afterwards a name is on a list exactly when the list's field spells it, and every trust row and every opt-out is as it was |
| HiveCorePolicies.TextRow | products/hive-core/backend/src/db.rs:3113-3124 | a row saved from a field is the operator's, unverified, with its note and time |
| HiveCorePolicies.SeparatorsAre | products/hive-core/backend/src/db.rs:3107 | the separators are the comma, the semicolon and the two line breaks |
| HiveCorePolicies.FieldReadsBackExactlyWhen | products/hive-core/backend/src/db.rs:3069-3128 | a field reads back as the list it shows if and only if no listed name holds a separator |
| HiveCorePolicies.SavingWhatIsShownExactlyWhen | products/hive-core/backend/src/db.rs:3056-3128 | saving the form as shown keeps every row in place if and only if no name on the two lists holds a separator |
| HiveCorePolicies.CommaIsAccepted | crates/patchhive-product-core/src/scope_policy.rs:123-136 | the stores accept a name with a comma in it |
| HiveCorePolicies.ReplaceRepositoryPolicies | products/hive-core/backend/src/db.rs:3153-3194 | the policy editor clears what operators own and upserts what the set asks for, or, with a bad name, changes nothing |
| HiveCorePolicies.ReplacedExactly | products/hive-core/backend/src/db.rs:3146-3194 | afterwards the operator's rows are exactly those asked for, and leaving out an opt-out does not revoke it |
| HiveCorePolicies.AcceptableExactlyWhen | products/hive-core/backend/src/db.rs:3171-3193 | a policy is refused if and only if it asks for something and names no repository |
| HiveCorePolicies.ReplacedByFlags | products/hive-core/backend/src/db.rs:3171-3177 | afterwards a repository is denied, allowed or trusted if and only if a policy naming it is flagged so, and what a policy excludes is excluded |
| HiveCorePolicies.ReplacedRow | products/hive-core/backend/src/db.rs:3179-3189 | the row stored is the operator's, unverified, with the notes and time of the last policy that asks for it |
| OptOutRegistry.TableIsReplay | services/patchhive-registry/src/db.rs:266-364 | in every run the table is the replay of the event log; a row exists exactly when an event does, the first event asserts, and the last one made the row |
| OptOutRegistry.RowsStay | services/patchhive-registry/src/db.rs:266-364 | a repository's row is never removed |
| OptOutRegistry.RegistryStore.AssertRepositoryOptOut | services/patchhive-registry/src/db.rs:266-322 | row and event are written together or, with a bad name, a blank actor or a failing store, neither is and an error is returned |
| OptOutRegistry.RegistryStore.RevokeRepositoryOptOut | services/patchhive-registry/src/db.rs:324-364 | an existing row and the log are updated together if the transaction commits; the error when the row cannot be read back comes after the commit |
| OptOutRegistry.ReadBackRefusedExactlyWhen | services/patchhive-registry/src/db.rs:363-379 | the connection for reading back is refused if and only if all others of the pool are taken, so always with a pool of one |
| OptOutSync.ApplyPublicOptOutFeed | products/hive-core/backend/src/db.rs:1337-1400 | the feed is applied item by item and its outcome recorded or, if any part is unacceptable, neither; the counts are those of the feed |
| OptOutSync.FeedTakenExactlyWhen | products/hive-core/backend/src/db.rs:1342-1356 | a feed is taken if and only if it has its one version, every state known and every assertion naming a repository |
| OptOutSync.RecordedCounts | products/hive-core/backend/src/db.rs:1380-1386 | the outcome recorded counts the assertions as active and the revocations as revoked |
| OptOutSync.FreshItem | products/hive-core/backend/src/db.rs:1358-1377 | on a repository without an opt-out an active item is stored as the public authority's, and a revoked one does nothing |
| OptOutSync.FeedBinds | products/hive-core/backend/src/db.rs:1357-1368 | whatever the table held, a repository the feed lists as active is excluded afterwards |
| OptOutSync.SyncConvergesExactlyWhen | products/hive-core/backend/src/db.rs:1337-1400 | after any operator edits and stale, repeated or reordered polls one current poll makes the verified opt-outs exactly the registry's active ones, if and only if no assertion the feed has ever shown is newer than the registry's last word on that repository |
| OptOutSync.SyncConverges | services/patchhive-registry/src/db.rs:266-364 | in particular when the operations on each repository commit in the order of their clock readings |
| OptOutSync.LateRevocationNeverArrives | services/patchhive-registry/src/db.rs:331-336 | a revocation that read the clock before an assertion and committed after it never reaches a store that has seen the assertion, by any polls and edits |
| OptOutSync.StalePollsKeepOptOut | products/hive-core/backend/src/db.rs:1337-1400 | a stored opt-out outlasts every operator edit and every poll, and keeps binding, when the registry never shows it revoked at its time or later |
| OptOutSync.StaysOptedOutExactlyWhen | products/hive-core/backend/src/db.rs:1337-1400 | it outlasts all of them if and only if that is so |
| OptOutSync.PollLiftsExactlyWhen | products/hive-core/backend/src/db.rs:1369-1377 | one poll lifts a stored opt-out if and only if it sees a revocation not older than it |
| OptOutSync.RenewalLiftedExactlyWhen | crates/patchhive-product-core/src/repo_policy.rs:238-255 | a stored renewal is lifted by a stale poll of the revocation before it if and only if the renewal's time is not later |
| OptOutSync.SharedTimestampLiftsOptOut | crates/patchhive-product-core/src/repo_policy.rs:238-255 | an opt-out renewed in the same instant as its revocation is lifted by a stale poll |
| OptOutSync.RowsStayKnown | services/patchhive-registry/src/db.rs:266-364 | a repository the registry knows stays known |
| OptOutSync.RowTimesGrow | services/patchhive-registry/src/db.rs:266-364 | when the operations on each repository commit in the order of their clock readings, the update times of its row never decrease |
| OptOutSync.PublishedFeedIsTaken | services/patchhive-registry/src/routes.rs:104-108 | the feed lists each stored row with its reason, time and whether it is active or revoked, and the store takes every feed the registry can publish |
| OptOutSync.PublishedIsOnePerRepository | services/patchhive-registry/src/db.rs:366-376 | the feed has one item per repository, under its normalised name |
| EnvFile.EditReadsBack | services/patchhive-launcher/src/main.rs:1923-1957 | after an edit the key reads as the cleaned value unless an unrecognised assignment stands in front, and every other key reads as before |
| EnvText.EditedText | services/patchhive-launcher/src/main.rs:1923-1957 | an edit writes every old line that does not begin, white space aside, with the key directly followed by `=`, in order, and then the assignment; with nothing but white space to keep, the assignment alone |
| EnvText.CommentsSurvive | services/patchhive-launcher/src/main.rs:1938-1950 | every comment survives every edit |
| EnvText.PlainLinesSurvive | services/patchhive-launcher/src/main.rs:1938-1950 | so does every line without `=`, where anything but white space is kept |
| EnvFile.ReadsBackExactlyWhen | services/patchhive-launcher/src/main.rs:1447-1467 | the value itself is read back if and only if a shadowing line says the same, or there is none and the value has neither padding nor quotes at its ends |
| EnvFile.CleanExactlyWhenBare | services/patchhive-launcher/src/main.rs:1447-1467 | the reader's three trims leave a value alone exactly when its ends are neither white space nor quotes |
| EnvText.QuotesPeelInOrder | services/patchhive-launcher/src/main.rs:1447-1467 | the reader peels double quotes, then single quotes, and no further |
| EnvFile.ShadowExactlyWhen | services/patchhive-launcher/src/main.rs:1447-1467 | something shadows a key if and only if some line, trimmed, is the key, at least one white space, and `=` |
| EnvFile.SpacedAssignmentShadows | services/patchhive-launcher/src/main.rs:1447-1467 | a `KEY = earlier` line is kept by the editor and still answers for the key afterwards |
| EnvFile.EditKeepsShadow | services/patchhive-launcher/src/main.rs:1923-1957 | no edit introduces or removes a shadowing line |
| EnvFile.EditsReadBack | services/patchhive-launcher/src/main.rs:1923-1957 | after any sequence of edits each key reads as what shadowed it at the start, if anything, else as its last edit's value cleaned, else as before |
| EnvFile.FormatEnvValue | crates/patchhive-product-core/src/auth.rs:263-282 | the loop's output is the value itself when plain, else its character-wise escape in double quotes |
| EnvFile.FormatRoundTrip | crates/patchhive-product-core/src/auth.rs:263-282 | every value can be recovered from the text written for it |
| EnvText.WrittenPlainExactlyWhen | crates/patchhive-product-core/src/auth.rs:263-282 | a value is written unquoted if and only if it holds only letters, digits and six marks |
| EnvFile.FormattedIsOneLine | crates/patchhive-product-core/src/auth.rs:263-282 | no value, line breaks included, is written over more than one line |
| EnvFile.PersistKeepsOtherKeys | crates/patchhive-product-core/src/auth.rs:284-298 | persisting any value at all leaves every other key reading as before |
| LauncherEnv.WriteProductEnv | services/patchhive-launcher/src/main.rs:498-564 | the file, created from its example or empty if it was missing, holds exactly the edits for the keys the form got through before a refused value or a failing update, the failing one included if its new file was in place; success means every key got through, one was written and the permissions were tightened; an unsupported key makes no edit |
| LauncherEnv.EditsExactly | services/patchhive-launcher/src/main.rs:531-551 | the edits are those of the supported keys given something but white space, each with its value trimmed |
| LauncherEnv.RejectsExactlyWhen | services/patchhive-launcher/src/main.rs:539-544 | a value is refused if and only if it holds a line feed or a carriage return that trimming leaves |
| LauncherEnv.UnsupportedExactlyWhen | services/patchhive-launcher/src/main.rs:498-530 | a form is unsupported if and only if its product has no definitions or some key given is none of them |
| LauncherEnv.AcceptedFormIsRead | services/patchhive-launcher/src/main.rs:498-564 | after an accepted form each key given reads as what shadows it, if anything, else as its trimmed value cleaned; blank or unmentioned keys as before |
| LauncherEnv.FormChangesNothingExactlyWhen | services/patchhive-launcher/src/main.rs:530-549 | every key reads as before if and only if that is so of each key whose value reached the file before the form stopped |
| LauncherEnv.NoEditsExactlyWhen | services/patchhive-launcher/src/main.rs:530-549 | the file is not rewritten at all if and only if no value is given |
| LauncherEnv.RefusedFormChangesKeys | services/patchhive-launcher/src/main.rs:530-549 | a form refused for its second value has written its first |
| PrivateFile.RunKeepsInv | crates/patchhive-product-core/src/environment.rs:36-158 | in every interleaving the locks exclude, the holder works from the current text, temporary files are accounted for, and the log matches the target |
| PrivateFile.TargetIsFoldOfCommits | crates/patchhive-product-core/src/environment.rs:36-158 | the target is always the initial text folded through the renamed updates in rename order; each success is in it exactly once, and a call, however it ended, is in it if and only if its rename was among the steps |
| PrivateFile.QuietMeansClean | crates/patchhive-product-core/src/environment.rs:18-29 | once all calls have returned, both locks are free and only orphans are left on disk |
| PrivateFile.OrphansHaveCauses | crates/patchhive-product-core/src/environment.rs:18-29 | only a process death or a failed removal leaves a temporary file behind |
| PrivateFile.ExitChangesNothing | crates/patchhive-product-core/src/environment.rs:18-29 | leaving early, in whatever way, neither changes the target nor takes back a rename |
| PrivateFile.PanicPoisons | crates/patchhive-product-core/src/environment.rs:40-42 | a panic under the mutex poisons it for good |
| PrivateFile.PoisonedCallsAreRefused | crates/patchhive-product-core/src/environment.rs:40-42 | from then on a waiting call of that process can only be refused, or die with it |
| PrivateFile.MutexDecides | crates/patchhive-product-core/src/environment.rs:40-42 | a call that finds its process's mutex free is let in if it is not poisoned and refused if it is; while the mutex is held, neither |
| PrivateFile.ReturnedStays | crates/patchhive-product-core/src/environment.rs:36-158 | a call that has returned keeps its answer through every later step |
| PrivateFile.FailureAfterRename | crates/patchhive-product-core/src/environment.rs:147-157 | a run in which a call returns an error with its text in place |
| PrivateFile.PrivateDirectory.UpdatePrivateTextFile | crates/patchhive-product-core/src/environment.rs:36-158 | for every pattern of failing system calls: the target is replaced by the update of its text exactly when all went well up to the rename; success means nothing failed after it either; no lock and no removable temporary file is left |
| PrivateEnvFile.ConcurrentEditsReadBack | crates/patchhive-product-core/src/auth.rs:284-298 | however editors interleave, fail or die, each key reads as what shadowed it at the start, if anything, else as its last committed edit's value cleaned, else as at the start |
| PrivateEnvFile.SuccessfulEditIsRead | crates/patchhive-product-core/src/auth.rs:284-298 | editors of different keys never lose each other's work: a successful edit of an unshadowed key nobody else edits reads as its value cleaned |
| RateLimit.LimiterRefinesLog | crates/patchhive-product-core/src/rate_limit.rs:69-113 | for calls in time order every answer, advertised wait included, is the one the full log of admitted requests gives, whatever the rule for sweeping |
| RateLimit.AdmittedExactlyWhen | crates/patchhive-product-core/src/rate_limit.rs:43-113 | a sensitive request is admitted if and only if fewer than `sensitive_max` admitted ones of its caller are in the window, a standard one if and only if fewer than `standard_max` are |
| RateLimit.WindowHoldsLimit | crates/patchhive-product-core/src/rate_limit.rs:69-113 | every half-open window holds at most the limit of a caller's admitted requests |
| RateLimit.EveryWindowWithinLimit | crates/patchhive-product-core/src/rate_limit.rs:43-113 | no window holds more admitted requests of one caller than the configured maximum of their kind |
| RateLimit.KeyExactlyWhen | crates/patchhive-product-core/src/rate_limit.rs:121-130 | two requests share a bucket if and only if they are of the same caller and kind, so they share a limit |
| RateLimit.RetryAdmittedExactlyWhen | crates/patchhive-product-core/src/rate_limit.rs:91-112 | after a refusal, with any calls on other keys between, a retry is admitted if and only if the oldest recent request has left the window |
| RateLimit.AdvertisedWait | crates/patchhive-product-core/src/rate_limit.rs:98-108 | the advertised wait is less than a second away from the true one, and long enough exactly when that is a whole number of seconds or below one |
| RateLimit.RetryAfterOneMoreSecond | crates/patchhive-product-core/src/rate_limit.rs:98-112 | waiting one second more than advertised is always enough |
| RateLimit.RetryAfterAsAdvertised | crates/patchhive-product-core/src/rate_limit.rs:98-112 | waiting exactly as advertised is enough if and only if the true wait was a whole number of seconds or below one |
| RateLimit.ObeyingRetryAfterCanFail | crates/patchhive-product-core/src/rate_limit.rs:98-112 | a caller told 59 seconds is refused again after 59 seconds |
| RateLimit.ZeroLimitRefuses | crates/patchhive-product-core/src/rate_limit.rs:98-108 | with a limit of zero nothing is admitted and the advertised wait is a minute |
| RateLimit.RateLimiter.Check | crates/patchhive-product-core/src/rate_limit.rs:69-113 | one call with its sweep, pruning and push does to the buckets what the specified step does, and fails closed when the lock is poisoned |
| RateLimit.RateLimiter.Sweep | crates/patchhive-product-core/src/rate_limit.rs:79-89 | every bucket is pruned and the empty ones dropped, in whatever order they are visited |
| Scheduling.SelectedAreDue | crates/patchhive-product-core/src/scheduling.rs:297-314 | a claim selects only due, enabled schedules, distinct and in order of time and name, each before every due one left out, up to the limit |
| ScheduleStatements.DueExactlyWhen | crates/patchhive-product-core/src/scheduling.rs:299-309 | due if and only if stored for the action, enabled, and its time has come |
| ScheduleStatements.SelectedInOrder | crates/patchhive-product-core/src/scheduling.rs:306-307 | the selected schedules ascend by time and then name, before every due one left out |
| Scheduling.NthClaimed | crates/patchhive-product-core/src/scheduling.rs:317-332 | each selected row is rewritten once, from what the query saw, with its own clock readings |
| ScheduleStatements.ClaimedExactly | crates/patchhive-product-core/src/scheduling.rs:317-332 | each schedule taken is next due one cadence after its second clock reading, last run at its first, keeps its settings and reads as claimed |
| Scheduling.OthersUnclaimed | crates/patchhive-product-core/src/scheduling.rs:317-332 | no other row changes |
| Scheduling.ScheduleStore.Save | crates/patchhive-product-core/src/scheduling.rs:217-282 | run alone, the table becomes the specified one, the saved row is returned, and an invalid product, action or name is an error that changes nothing |
| ScheduleStatements.SaveAcceptedExactlyWhen | crates/patchhive-product-core/src/scheduling.rs:387-416 | a save is accepted if and only if product and action are made of letters, digits, hyphens and underscores and the trimmed name has 1 to 80 characters, none a control character |
| ScheduleStatements.NextTimeExactly | crates/patchhive-product-core/src/scheduling.rs:227-240 | the next time stays if and only if switch and cadence do, and otherwise is one cadence, between an hour and a year, after the clock reading |
| ScheduleStatements.RecreatedRow | crates/patchhive-product-core/src/scheduling.rs:229-232 | a row deleted after the save had read it comes back with its creation time |
| Scheduling.ScheduleStore.ClaimDue | crates/patchhive-product-core/src/scheduling.rs:291-336 | the selected rows, and only those, are advanced; they are returned in order as they are then stored |
| Scheduling.ScheduleStore.RecordResult | crates/patchhive-product-core/src/scheduling.rs:338-381 | writes the outcome to an existing row; refuses a blank outcome or error; reports whether there was a row |
| ScheduleStatements.RefusedExactlyWhen | crates/patchhive-product-core/src/scheduling.rs:345-363 | a result is refused if and only if it completed without an outcome or failed without an error |
| ScheduleStatements.RecordTouchesOnlyState | crates/patchhive-product-core/src/scheduling.rs:364-380 | an accepted result changes the execution columns of its schedule and nothing else |
| ScheduleRuns.ClaimsAreDue | crates/patchhive-product-core/src/scheduling.rs:297-332 | a claim never takes a disabled schedule, nor one before it is due, nor one twice |
| ScheduleRuns.SpacingExactlyWhen | crates/patchhive-product-core/src/scheduling.rs:217-336 | with saves interrupted anywhere, claims of one schedule stay an hour apart, whichever claim comes next, if and only if no write of a save puts back a time within an hour of a claim before that hour is over |
| ScheduleRuns.ClaimsHourApart | crates/patchhive-product-core/src/scheduling.rs:217-336 | they do in every run in which no claim falls between the read and the write of a place-keeping save, or between the clock reading and the write of another |
| ScheduleRuns.UninterruptedIsUndisturbed | crates/patchhive-product-core/src/scheduling.rs:227-278 | a save that nothing comes between is such a save |
| ScheduleRuns.UninterruptedSave | crates/patchhive-product-core/src/scheduling.rs:217-282 | read and write together are the save of the store |
| ScheduleRuns.ClaimsCadenceApart | crates/patchhive-product-core/src/scheduling.rs:317-332 | and a whole stored cadence apart when no save writes the schedule in between |
| ScheduleStatements.DueAgainExactlyWhen | crates/patchhive-product-core/src/scheduling.rs:317-332 | a claimed schedule nobody writes, deletes or takes is due again from exactly one cadence after its clock reading |
| ScheduleRaces.StaleSaveReclaims | crates/patchhive-product-core/src/scheduling.rs:227-278 | a claim between a save's read and its write is overtaken if and only if the save keeps its place or its clock plus cadence ends within the hour, and the schedule is due at once if and only if the save keeps its place or that time is over |
| ScheduleRaces.KeptPlaceIsClaimedTwice | crates/patchhive-product-core/src/scheduling.rs:227-278 | a run in which re-saving the same settings leads to two claims in one instant |
| ScheduleRaces.EarlyClockIsClaimedTwice | crates/patchhive-product-core/src/scheduling.rs:227-278 | a run in which a save that took the clock before a claim leads to two claims less than an hour apart |
| ScheduleRuns.SaveTouchesOnlySettings | crates/patchhive-product-core/src/scheduling.rs:227-278 | a save stores the settings given, keeps creation time and execution state, touches no other schedule, and recomputes the next time exactly when cadence or switch change |
| ScheduleRuns.ResavingKeepsPlace | crates/patchhive-product-core/src/scheduling.rs:233-239 | saving the same settings again never postpones a schedule |
| ScheduleDraining.RoundsDrain | crates/patchhive-product-core/src/scheduling.rs:297-335 | repeated claims at one instant take the due schedules in order, up to the limit each time, none twice |
| ScheduleDraining.EnoughRoundsDrainAll | crates/patchhive-product-core/src/scheduling.rs:297-335 | once rounds times limit reach the number due, nothing is due and each was taken exactly once |
| ScheduleDraining.RoundLeaves | crates/patchhive-product-core/src/scheduling.rs:297-335 | every row not taken in a round is unchanged |
| ScheduleEvidence.DecodedKeepsTime | crates/patchhive-product-core/src/contract.rs:488-497 | the decoded state of any row, however contradictory, reports the stored time |
| ScheduleStatements.DecodedExactly | crates/patchhive-product-core/src/scheduling.rs:445-499 | which state each stored word stands for, and which columns it needs to |
| ScheduleEvidence.RecordedDecodesExactlyWhen | crates/patchhive-product-core/src/scheduling.rs:445-499 | an accepted result decodes back exactly, if and only if it is not a completed outcome that is one of six reserved words |
| ScheduleEvidence.RecordedUnknownExactlyWhen | crates/patchhive-product-core/src/scheduling.rs:445-499 | it decodes to an unknown state exactly for an idle word, or a claimed one together with a run id |
| ScheduleEvidence.IdleOutcomeIsUnknown | crates/patchhive-product-core/src/scheduling.rs:445-499 | a run that completed with the outcome `idle` decodes to an unknown state |
| ScheduleRuns.ReachableRowsKnown | crates/patchhive-product-core/src/scheduling.rs:217-499 | every row a run can reach, interrupted saves included, decodes to a known state if no such outcome is recorded |
| ScheduleEvidence.ScheduleIdInjective | crates/patchhive-product-core/src/scheduling.rs:403-416 | identifiers of saved schedules never collide, so updating by identifier is updating by key |
| CanonicalJson.CanonicalNormalises | crates/patchhive-product-core/src/approvals.rs:223-236 | the canonical form has ascending keys at every depth and means the same |
| CanonicalJson.NormalFormUnique | crates/patchhive-product-core/src/approvals.rs:223-236 | two values with ascending keys that mean the same are equal |
| CanonicalJson.CanonicalExactlyWhenSameMeaning | crates/patchhive-product-core/src/approvals.rs:223-236 | canonical forms are equal if and only if the values agree up to key order at every depth |
| CanonicalJson.CanonicalIdempotent | crates/patchhive-product-core/src/approvals.rs:223-236 | canonicalising twice is canonicalising once |
| Approvals.StringMapInjective | crates/patchhive-product-core/src/approvals.rs:210-219 | different parameter maps have different canonical forms |
| Approvals.InputHashExactlyWhenSameInput | crates/patchhive-product-core/src/approvals.rs:194-208 | two dispatches hash alike if and only if their parameters agree and their payloads mean the same |
| Approvals.SortAndDedup | crates/patchhive-product-core/src/approvals.rs:44-46 | sorting and removing neighbours gives the ascending list of the set of scopes |
| Approvals.FingerprintExactlyWhenSameRequest | crates/patchhive-product-core/src/approvals.rs:33-72 | an approval fits exactly the requests with the same product, action, effect, scopes, target, origin and input meaning |
| SqlitePool.RunsKeepInv | crates/patchhive-product-core/src/sqlite.rs:128-157 | in every interleaving of gets, failed opens and drops the open count equals idle plus held plus opening and stays within the maximum, and no connection is in two places |
| SqlitePool.CapacityExactlyWhen | crates/patchhive-product-core/src/sqlite.rs:128-157 | a caller is turned away if and only if every slot is held or being opened; giving a slot back never saturates |
| SqlitePool.SqlitePool.TakeSlot | crates/patchhive-product-core/src/sqlite.rs:128-139 | the locked part of `get` reuses an idle connection, reserves a slot or refuses, and keeps the accounting |
| SqlitePool.SqlitePool.FinishOpen | crates/patchhive-product-core/src/sqlite.rs:141-154 | a failed open gives exactly its own slot back |
| SqlitePool.SqlitePool.Return | crates/patchhive-product-core/src/sqlite.rs:282-292 | a dropped connection becomes idle and frees nobody else's slot |
| Pagination.GetPaginatedArray | crates/patchhive-github-pr/src/client.rs:105-141 | the fixed-size loop terminates with the whole list |
| Pagination.GetPaginated | crates/patchhive-github-data/src/client.rs:152-188 | the loop with a limit terminates with the specified slice of the list, for every limit |
| Pagination.FetchedIsPrefixExactlyWhen | crates/patchhive-github-data/src/client.rs:152-188 | that slice is the first items of the list if and only if the limit is at most 100, a multiple of 100, or the list ends before the last page; otherwise some item is fetched twice |
| Pagination.FetchOf150 | crates/patchhive-github-data/src/client.rs:152-188 | asking for 150 of a longer list returns items 50 to 99 twice and none after 99 |
| Pagination.GetCursorPaginated | crates/patchhive-github-data/src/client.rs:190-251 | against every server the loop ends, after fewer than limit / 100 + 1 requests, with the specified pages |
| Pagination.CursorPrefix | crates/patchhive-github-data/src/client.rs:190-251 | against a server of one list that is its first items up to the limit, for every limit |
| Pagination.CursorWithinLimit | crates/patchhive-github-data/src/client.rs:190-251 | a server that keeps to the page size cannot make the loop return more than the limit |
| ReviewThreads.FetchComments | crates/patchhive-github-pr/src/client.rs:444-468 | the inner loop over a thread's comments computes the specified result, errors included, against any server |
| ReviewThreads.CommentsExactlyWhen | crates/patchhive-github-pr/src/client.rs:444-468 | whatever the server does, it succeeds if and only if advancing cursors lead to a last page, and returns the comments of every page on the way, in order |
| ReviewThreads.CommentErrorsExactlyWhen | crates/patchhive-github-pr/src/client.rs:444-468 | each error, exactly: a page reached repeats its cursor; a page reached announces more without a cursor; the loop is still asking when the answers end |
| ReviewThreads.AlternatingCursorsGoUnnoticed | crates/patchhive-github-pr/src/client.rs:444-468 | two cursors that alternate keep the loop asking, however many requests are answered |
| ReviewThreads.FetchReviewThreads | crates/patchhive-github-pr/src/client.rs:419-489 | the nested loops compute the specified result, errors included, against any servers |
| ReviewThreads.ThreadsExactlyWhen | crates/patchhive-github-pr/src/client.rs:419-489 | whatever the servers do, the outer loop succeeds if and only if advancing cursors lead to a last page and no thread on the way fails, and returns the threads of every page, in order |
| ReviewThreads.ThreadErrorsExactlyWhen | crates/patchhive-github-pr/src/client.rs:419-489 | each error, exactly: that of the first failing thread; a page reached announces more without a new cursor; the loop is still asking when the answers end |
| ReviewThreads.PageThreadsExactlyWhen | crates/patchhive-github-pr/src/client.rs:443-478 | a page comes back if and only if every thread's comments do, each with its own |
| ReviewThreads.PageFailsExactlyWhen | crates/patchhive-github-pr/src/client.rs:443-478 | a page fails as its first failing thread does |
| ReviewThreads.ServedComments | crates/patchhive-github-pr/src/client.rs:444-468 | against a server of one list every comment comes back once, in order, and no error fires |
| ReviewThreads.ServedThreads | crates/patchhive-github-pr/src/client.rs:419-489 | every thread comes back with all its comments and no error fires |
| Pagination.FromRetained | crates/patchhive-product-core/src/contract.rs:357-371 | for every 64-bit offset and limit a page is the slice it reports, from the offset asked for or the end, with the true total and a limit of at least one; there is more exactly when it ends before the list does |
| Pagination.WalkShowsEverything | crates/patchhive-product-core/src/contract.rs:357-371 | advancing the offset while there is more terminates and shows exactly the evidence from that offset on, for every limit |

## Left out

- HTTP handlers, middleware, header parsing, Docker control, the browser code and configuration: no state of their own to prove things about.
- The pull-request budget guard (three client states around calls whose server side is not in this repository's shared crates), resource admission (comparisons against configured limits), slug making, and the two wire forms of a product action.
- Issuing and rotating service tokens: key generation and hashing carry the meaning there; only the file edit they end in is modelled.
- The internals of SQLite, serde and SHA-256: tables are maps, statements and transactions are atomic, JSON is a datatype, the hash is injective.
- dotenvy as a reader: `FormatRoundTrip` recovers a written value with a reference decoder of the four escapes, not with dotenvy's parser.
- RFC 3339 text: timestamps are integers, on the assumption that the stored strings compare like the times they name.
- Reason texts and evaluation times of decisions: a decision's chain is modelled by what each step says, not by its wording.
- `Evaluate` reads one table: `evaluate` reads the rows and then whether there is an allowlist, in two statements that another writer could come between.
- The migration's reading of the old tables is one step; nothing modelled here writes them.
- Clock reads before the limiter's lock: calls are assumed to take effect in the order of their times.
- A poisoned pool mutex, file permissions and symbolic links: beyond "this step may fail" they are not modelled.
- What `save` and a revocation read back after their write: in `ScheduleStore.Save` and `RevokeRepositoryOptOut`, which run alone, it is the row just written; another writer could delete or change it first.
- A `.env` file that cannot be created: `WriteProductEnv` starts with the file in place.
- Lists that change between two pages, and JSON replies with missing or mistyped fields: a reply here is a list of items, a flag and a cursor. Numbered paging is proved against servers of one list only.
- The `u32` and `usize` page counters are unbounded here; the 64-bit arithmetic of retained evidence is modelled.
- The stable sort by strength is modelled by its result, the four groups in turn, and proved to be a sort; the scopes are sorted by insertion, since sorting and dropping repetitions has only one result.
- The running and failed states of an opt-out synchronisation, which other functions record; only the outcome written with an applied feed is modelled.
- Contradictory rows in the registry's storage, which decode to an unknown lifecycle: no operation modelled here writes one.
