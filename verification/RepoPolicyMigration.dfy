/** What folding the legacy per-product lists into the shared table does, whatever order they are read in. */
module RepoPolicyMigration {
  import opened Wrappers
  import opened ScopePolicy
  import opened RepoPolicyTable
  import opened RepoPolicy

  // ---------------------------------------------------------------------------------------
  // The stable sort by descending strength, and the listing it puts first.

  function OfKind(claims: seq<Claim>, kind: PolicyKind): (r: seq<Claim>)
    ensures forall c :: c in r <==> c in claims && c.kind == kind
    ensures forall i :: 0 <= i < |r| ==> r[i].kind == kind
  {
    if claims == [] then []
    else
      assert claims == [claims[0]] + claims[1..];
      (if claims[0].kind == kind then [claims[0]] else []) + OfKind(claims[1..], kind)
  }

  /** `sort_by_key(Reverse(strength))`: a stable sort over four keys is the four groups in turn. */
  function SortedByStrength(claims: seq<Claim>): seq<Claim> {
    OfKind(claims, OptOut) + OfKind(claims, Denylist) + OfKind(claims, Allowlist) + OfKind(claims, Trusted)
  }

  ghost predicate Descending(claims: seq<Claim>) {
    forall i, j :: 0 <= i < j < |claims| ==> Strength(claims[i].kind) >= Strength(claims[j].kind)
  }

  lemma DescendingConcat(a: seq<Claim>, b: seq<Claim>, pivot: nat)
    requires Descending(a) && Descending(b)
    requires forall i :: 0 <= i < |a| ==> Strength(a[i].kind) >= pivot
    requires forall i :: 0 <= i < |b| ==> Strength(b[i].kind) <= pivot
    ensures Descending(a + b)
  {}

  lemma SortedByStrengthDescends(claims: seq<Claim>)
    ensures Descending(SortedByStrength(claims))
  {
    var o, d := OfKind(claims, OptOut), OfKind(claims, Denylist);
    var a, t := OfKind(claims, Allowlist), OfKind(claims, Trusted);
    DescendingConcat(o, d, 2);
    DescendingConcat(o + d, a, 1);
    DescendingConcat(o + d + a, t, 0);
  }

  lemma {:induction false} OfKindCount(claims: seq<Claim>, kind: PolicyKind, c: Claim)
    ensures multiset(OfKind(claims, kind))[c] == if c.kind == kind then multiset(claims)[c] else 0
  {
    if claims == [] {
    } else {
      OfKindCount(claims[1..], kind, c);
      assert claims == [claims[0]] + claims[1..];
    }
  }

  /** It is a sort: a permutation, in descending strength. */
  lemma SortedByStrengthIsSort(claims: seq<Claim>)
    ensures multiset(SortedByStrength(claims)) == multiset(claims)
    ensures Descending(SortedByStrength(claims))
  {
    SortedByStrengthDescends(claims);
    hide OfKind, Descending;
    forall c
      ensures multiset(SortedByStrength(claims))[c] == multiset(claims)[c]
    {
      OfKindCount(claims, OptOut, c);
      OfKindCount(claims, Denylist, c);
      OfKindCount(claims, Allowlist, c);
      OfKindCount(claims, Trusted, c);
    }
  }

  /** The first claim that is not trust. */
  function FirstListing(claims: seq<Claim>): Option<PolicyKind> {
    if claims == [] then None
    else if claims[0].kind != Trusted then Some(claims[0].kind)
    else FirstListing(claims[1..])
  }

  lemma {:induction false} FirstListingConcat(a: seq<Claim>, b: seq<Claim>)
    ensures FirstListing(a + b) == if FirstListing(a).Some? then FirstListing(a) else FirstListing(b)
  {
    if a == [] {
      assert a + b == b;
    } else {
      assert (a + b)[1..] == a[1..] + b;
      FirstListingConcat(a[1..], b);
    }
  }

  lemma {:induction false} FirstListingUniform(claims: seq<Claim>, kind: PolicyKind)
    requires forall i :: 0 <= i < |claims| ==> claims[i].kind == kind
    ensures FirstListing(claims) == if claims == [] || kind == Trusted then None else Some(kind)
  {
    if claims == [] {
    } else {
      FirstListingUniform(claims[1..], kind);
    }
  }

  lemma FirstListingSorted(claims: seq<Claim>)
    ensures FirstListing(SortedByStrength(claims)) ==
      if OfKind(claims, OptOut) != [] then Some(OptOut)
      else if OfKind(claims, Denylist) != [] then Some(Denylist)
      else if OfKind(claims, Allowlist) != [] then Some(Allowlist)
      else None
  {
    var o, d := OfKind(claims, OptOut), OfKind(claims, Denylist);
    var a, t := OfKind(claims, Allowlist), OfKind(claims, Trusted);
    forall kind
      ensures forall i :: 0 <= i < |OfKind(claims, kind)| ==> OfKind(claims, kind)[i].kind == kind
    {
      assert forall i :: 0 <= i < |OfKind(claims, kind)| ==> OfKind(claims, kind)[i] in OfKind(claims, kind);
    }
    hide OfKind;
    hide FirstListing;
    FirstListingUniform(o, OptOut);
    FirstListingUniform(d, Denylist);
    FirstListingUniform(a, Allowlist);
    FirstListingUniform(t, Trusted);
    FirstListingConcat(o + d + a, t);
    FirstListingConcat(o + d, a);
    FirstListingConcat(o, d);
  }

  function ForRepository(claims: seq<Claim>, name: string): (r: seq<Claim>)
    ensures forall c :: c in r <==> c in claims && c.repository == name
  {
    if claims == [] then []
    else
      var last := claims[|claims| - 1];
      assert forall c :: c in claims <==> c in claims[..|claims| - 1] || c == last;
      ForRepository(claims[..|claims| - 1], name) + (if last.repository == name then [last] else [])
  }

  lemma ForRepositoryAppend(claims: seq<Claim>, more: seq<Claim>, name: string)
    requires |more| <= 1
    ensures ForRepository(claims + more, name) == ForRepository(claims, name) + ForRepository(more, name)
  {
    if |more| == 0 {
      assert claims + more == claims;
    } else {
      assert (claims + more)[..|claims|] == claims;
      assert more[..0] == [];
    }
  }

  lemma KeyClaimed(claims: seq<Claim>, name: string, kind: PolicyKind)
    ensures RowKey(name, kind) in ClaimKeys(claims) <==> OfKind(ForRepository(claims, name), kind) != []
  {
    var own := OfKind(ForRepository(claims, name), kind);
    assert own != [] ==> own[0] in own;
    if RowKey(name, kind) in ClaimKeys(claims) {
      var c :| c in claims && RowKey(c.repository, c.kind) == RowKey(name, kind);
      assert c in own;
    }
  }

  /** The listing taken for a repository is the strongest one anybody claimed. */
  lemma FirstListingIsStrongest(claims: seq<Claim>, name: string, kind: PolicyKind)
    ensures FirstListing(SortedByStrength(ForRepository(claims, name))) == Some(kind)
      <==> IsStrongest(ClaimKeys(claims), RowKey(name, kind))
  {
    var keys := ClaimKeys(claims);
    FirstListingSorted(ForRepository(claims, name));
    KeyClaimed(claims, name, OptOut);
    KeyClaimed(claims, name, Denylist);
    KeyClaimed(claims, name, Allowlist);
    hide ClaimKeys;
    hide OfKind;
    hide SortedByStrength;
    hide FirstListing;
    hide ForRepository;
    assert forall other: RowKey :: other.repository == name ==> other == RowKey(name, other.kind);
  }

  // ---------------------------------------------------------------------------------------
  // The result of a migration.

  /** Two different listings of one repository; trust is not a listing. */
  ghost predicate Disputed(keys: set<RowKey>, name: string) {
    exists a, b :: RowKey(name, a) in keys && RowKey(name, b) in keys && a != b && a != Trusted && b != Trusted
  }

  /** The disputes a migration settles: those whose strongest listing it writes. */
  ghost function Settled(table: Table, legacy: Legacy): set<RowKey> {
    var keys := ClaimKeys(LegacyClaims(legacy));
    set key | key in keys && IsStrongest(keys, key) && key !in table && Disputed(keys, key.repository)
  }

  ghost function AddedKeys(table: Table, legacy: Legacy): set<RowKey> {
    MigrationKeys(ClaimKeys(LegacyClaims(legacy))) - table.Keys
  }

  ghost predicate Claimed(legacy: Legacy, name: string, kind: PolicyKind) {
    exists c :: c in LegacyClaims(legacy) && c.repository == name && c.kind == kind
  }

  lemma ClaimedKeys(legacy: Legacy)
    ensures forall key :: key in ClaimKeys(LegacyClaims(legacy)) <==> Claimed(legacy, key.repository, key.kind)
  {
    hide LegacyClaims;
    forall key
      ensures key in ClaimKeys(LegacyClaims(legacy)) <==> Claimed(legacy, key.repository, key.kind)
    {
      assert key == RowKey(key.repository, key.kind);
    }
  }

  /** Only the set of (repository, kind) claims matters: not their order, repetition or origin. */
  lemma MigrationOrderIrrelevant(table: Table, first: Legacy, second: Legacy, now: Time)
    requires forall name, kind :: Claimed(first, name, kind) <==> Claimed(second, name, kind)
    ensures Migrated(table, first, now) == Migrated(table, second, now)
    ensures Settled(table, first) == Settled(table, second)
  {
    hide LegacyClaims;
    ClaimedKeys(first);
    ClaimedKeys(second);
    hide ClaimKeys;
    assert forall key: RowKey :: key == RowKey(key.repository, key.kind);
    assert ClaimKeys(LegacyClaims(first)) == ClaimKeys(LegacyClaims(second));
  }

  lemma WithMissingShape(table: Table, keys: set<RowKey>, now: Time)
    ensures var after := WithMissing(table, keys, now);
      && after.Keys == table.Keys + (keys - table.Keys)
      && |after| == |table| + |keys - table.Keys|
      && forall key :: key in table ==> after[key] == table[key]
  {
    var after := WithMissing(table, keys, now);
    assert after.Keys == table.Keys + (keys - table.Keys);
    assert |after.Keys| == |table.Keys| + |keys - table.Keys|;
  }

  /** A migration only adds rows, and adds exactly the missing strongest listings and trust rows. */
  lemma MigrationOnlyAdds(table: Table, legacy: Legacy, now: Time)
    ensures var after := Migrated(table, legacy, now);
      && after.Keys == table.Keys + AddedKeys(table, legacy)
      && |after| == |table| + |AddedKeys(table, legacy)|
      && forall key :: key in table ==> after[key] == table[key]
  {
    hide LegacyClaims;
    hide MigrationKeys;
    hide ClaimKeys;
    hide WithMissing;
    WithMissingShape(table, MigrationKeys(ClaimKeys(LegacyClaims(legacy))), now);
  }

  /** Running it again at once changes nothing, writes nothing and settles no dispute. */
  lemma MigrationIdempotent(table: Table, legacy: Legacy, now: Time, later: Time)
    ensures var after := Migrated(table, legacy, now);
      && Migrated(after, legacy, later) == after
      && AddedKeys(after, legacy) == {}
      && Settled(after, legacy) == {}
  {
    hide LegacyClaims, ClaimKeys, IsStrongest, WithMissing;
    var keys := ClaimKeys(LegacyClaims(legacy));
    var after := Migrated(table, legacy, now);
    WithMissingShape(table, MigrationKeys(keys), now);
    WithMissingShape(after, MigrationKeys(keys), later);
    assert forall key :: key in keys && IsStrongest(keys, key) ==> key in MigrationKeys(keys);
    hide MigrationKeys;
    assert AddedKeys(after, legacy) == {};
  }

  /**
    The old stores are read at every start: a row that is missing then, removed or never there, is written
    exactly when they claim it.
   */
  lemma MissingRowReturnsExactlyWhen(edited: Table, legacy: Legacy, later: Time, key: RowKey)
    requires key !in edited
    ensures key in Migrated(edited, legacy, later) <==> key in MigrationKeys(ClaimKeys(LegacyClaims(legacy)))
  {
    hide LegacyClaims, MigrationKeys, ClaimKeys, WithMissing;
    WithMissingShape(edited, MigrationKeys(ClaimKeys(LegacyClaims(legacy))), later);
  }

  /**
    A listing or trust that an operator removes comes back with the next start exactly when an old store
    still makes that claim its strongest, or claims trust.
   */
  lemma RemovalOutlastsRestartExactlyWhen(table: Table, legacy: Legacy, later: Time, name: string, kind: PolicyKind)
    requires IsNormalized(name)
    requires var key := RowKey(name, kind); key in table ==> !IsVerifiedOptOut(key, table[key])
    ensures RowKey(name, kind) !in Migrated(Removed(table, name, kind), legacy, later)
      <==> RowKey(name, kind) !in MigrationKeys(ClaimKeys(LegacyClaims(legacy)))
  {
    hide LegacyClaims, MigrationKeys, ClaimKeys, WithMissing, NormalizeRepoName, Migrated;
    MissingRowReturnsExactlyWhen(Removed(table, name, kind), legacy, later, RowKey(name, kind));
  }

  /** For example: trust taken away from a repository that HiveCore's old table still trusts. */
  lemma RemovedTrustReturns(table: Table, legacy: Legacy, later: Time, name: string)
    requires IsNormalized(name) && Claimed(legacy, name, Trusted)
    ensures RowKey(name, Trusted) !in Removed(table, name, Trusted)
    ensures RowKey(name, Trusted) in Migrated(Removed(table, name, Trusted), legacy, later)
  {
    hide LegacyClaims, WithMissing, NormalizeRepoName, ClaimKeys, Migrated;
    ClaimedKeys(legacy);
    assert RowKey(name, Trusted) in MigrationKeys(ClaimKeys(LegacyClaims(legacy)));
    hide MigrationKeys;
    MissingRowReturnsExactlyWhen(Removed(table, name, Trusted), legacy, later, RowKey(name, Trusted));
  }

  /** Whatever the table held before, a repository any old store excluded is excluded afterwards. */
  lemma ExclusionsSurviveMigration(table: Table, legacy: Legacy, now: Time, claim: Claim)
    requires claim in LegacyClaims(legacy) && (claim.kind == OptOut || claim.kind == Denylist)
    ensures Excluded(Migrated(table, legacy, now), claim.repository)
  {
    hide LegacyClaims;
    hide Excluded;
    var name, claims := claim.repository, LegacyClaims(legacy);
    var keys := ClaimKeys(claims);
    assert RowKey(name, claim.kind) in keys;
    var kind := if RowKey(name, OptOut) in keys then OptOut else Denylist;
    assert IsStrongest(keys, RowKey(name, kind));
    assert RowKey(name, kind) in MigrationKeys(keys);
    ListedExclusionBinds(Migrated(table, legacy, now), name);
  }

  ghost function KeysOf(keys: set<RowKey>, names: set<string>): set<RowKey> {
    set key | key in keys && key.repository in names
  }

  lemma KeysOfAll(keys: set<RowKey>, names: set<string>)
    requires forall key :: key in keys ==> key.repository in names
    ensures KeysOf(keys, names) == keys
  {}

  /** What the migration writes for one repository, given the claims about it. */
  function RepositoryKeys(name: string, own: seq<Claim>): set<RowKey> {
    (match FirstListing(SortedByStrength(own)) case None => {} case Some(kind) => {RowKey(name, kind)})
    + (if OfKind(own, Trusted) != [] then {RowKey(name, Trusted)} else {})
  }

  lemma RepositoryKeysAreWanted(claims: seq<Claim>, name: string, key: RowKey)
    ensures key in RepositoryKeys(name, ForRepository(claims, name))
      <==> key.repository == name && key in MigrationKeys(ClaimKeys(claims))
  {
    hide ClaimKeys;
    hide OfKind;
    hide SortedByStrength;
    hide FirstListing;
    hide ForRepository;
    FirstListingSorted(ForRepository(claims, name));
    FirstListingIsStrongest(claims, name, key.kind);
    KeyClaimed(claims, name, Trusted);
    assert key == RowKey(key.repository, key.kind);
  }

  /** One more repository contributes the listing found for it, and trust if anybody claimed it. */
  lemma MigrationKeysNext(claims: seq<Claim>, names: set<string>, name: string)
    ensures var wanted := MigrationKeys(ClaimKeys(claims));
      KeysOf(wanted, names + {name}) == KeysOf(wanted, names) + RepositoryKeys(name, ForRepository(claims, name))
  {
    hide RepositoryKeys;
    hide MigrationKeys;
    hide ClaimKeys;
    hide ForRepository;
    forall key {
      RepositoryKeysAreWanted(claims, name, key);
    }
  }

  /** Counting the distinct listings tells whether they disagree. */
  lemma DistinctMeansDisputed(claims: seq<Claim>, name: string)
    ensures var distinct := set c | c in ForRepository(claims, name) && c.kind != Trusted :: c.kind;
      |distinct| > 1 <==> Disputed(ClaimKeys(claims), name)
  {
    var own := ForRepository(claims, name);
    var distinct := set c | c in own && c.kind != Trusted :: c.kind;
    forall kind
      ensures kind in distinct <==> kind != Trusted && RowKey(name, kind) in ClaimKeys(claims)
    {
      KeyClaimed(claims, name, kind);
      var some := OfKind(own, kind);
      assert some != [] ==> some[0] in some;
    }
    if |distinct| > 1 {
      var a :| a in distinct;
      assert |distinct - {a}| > 0;
      var b :| b in distinct - {a};
      assert Disputed(ClaimKeys(claims), name);
    }
    if Disputed(ClaimKeys(claims), name) {
      var a, b :| RowKey(name, a) in ClaimKeys(claims) && RowKey(name, b) in ClaimKeys(claims)
        && a != b && a != Trusted && b != Trusted;
      assert {a, b} <= distinct;
      assert |distinct| == |{a, b}| + |distinct - {a, b}|;
    }
  }

  /** The dispute settled by writing the listing of one repository, if there is one. */
  function RepositoryDispute(table: Table, name: string, own: seq<Claim>): Option<RowKey> {
    var distinct := set c | c in own && c.kind != Trusted :: c.kind;
    match FirstListing(SortedByStrength(own))
    case Some(kind) => if RowKey(name, kind) !in table && |distinct| > 1 then Some(RowKey(name, kind)) else None
    case None => None
  }

  lemma StrongestIsClaimed(keys: set<RowKey>, key: RowKey)
    ensures IsStrongest(keys, key) ==> key in keys
  {}

  lemma SettledNext(table: Table, legacy: Legacy, names: set<string>, name: string)
    ensures var settled := Settled(table, legacy);
      var own := ForRepository(LegacyClaims(legacy), name);
      KeysOf(settled, names + {name}) == KeysOf(settled, names)
        + match RepositoryDispute(table, name, own) case None => {} case Some(key) => {key}
  {
    hide LegacyClaims;
    hide IsStrongest;
    hide Disputed;
    hide SortedByStrength;
    hide FirstListing;
    hide ForRepository;
    var claims := LegacyClaims(legacy);
    DistinctMeansDisputed(claims, name);
    forall key: RowKey | key.repository == name
      ensures key in Settled(table, legacy)
        <==> RepositoryDispute(table, name, ForRepository(claims, name)) == Some(key)
    {
      assert key == RowKey(name, key.kind);
      FirstListingIsStrongest(claims, name, key.kind);
      assert IsStrongest(ClaimKeys(claims), key) ==> key in ClaimKeys(claims) by {
        StrongestIsClaimed(ClaimKeys(claims), key);
      }
    }
  }

  lemma WithMissingTwice(table: Table, first: set<RowKey>, second: set<RowKey>, now: Time)
    ensures WithMissing(WithMissing(table, first, now), second, now) == WithMissing(table, first + second, now)
  {}

  lemma WithMissingOne(table: Table, key: RowKey, now: Time)
    requires IsNormalized(key.repository)
    ensures WithMissing(table, {key}, now)
      == InsertedIfAbsent(table, Entry(key.repository, key.kind, MigrationRow(key.kind, now)))
  {
    hide NormalizeRepoName;
    hide MigrationRow;
  }

  // ---------------------------------------------------------------------------------------
  // A migration is not one transaction.

  ghost predicate AllInserts(ops: seq<Op>) {
    forall i :: 0 <= i < |ops| ==> ops[i].InsertIfAbsent? && !ops[i].entry.row.verified
  }

  lemma NothingMissing(table: Table, now: Time)
    ensures Run(table, []) == table && WithMissing(table, {}, now) == table
  {}

  function MigrationInsert(key: RowKey, now: Time): Op {
    InsertIfAbsent(Entry(key.repository, key.kind, MigrationRow(key.kind, now)))
  }

  lemma InsertNext(table: Table, earlier: seq<Op>, rest: set<RowKey>, key: RowKey, now: Time)
    requires IsNormalized(key.repository) && Run(table, earlier) == WithMissing(table, rest, now)
    ensures Run(table, earlier + [MigrationInsert(key, now)]) == WithMissing(table, rest + {key}, now)
  {
    WithMissingOne(Run(table, earlier), key, now);
    WithMissingTwice(table, rest, {key}, now);
    hide IsNormalized, Run, WithMissing, InsertedIfAbsent;
    RunAppend(table, earlier, [MigrationInsert(key, now)]);
    RunOne(Run(table, earlier), MigrationInsert(key, now));
  }

  lemma {:induction false} MissingIsInserts(table: Table, keys: set<RowKey>, now: Time) returns (ops: seq<Op>)
    requires forall key :: key in keys ==> IsNormalized(key.repository)
    ensures AllInserts(ops) && Run(table, ops) == WithMissing(table, keys, now)
    decreases |keys|
  {
    hide IsNormalized, Run, WithMissing;
    if keys == {} {
      ops := [];
      NothingMissing(table, now);
    } else {
      var key :| key in keys;
      var earlier := MissingIsInserts(table, keys - {key}, now);
      ops := earlier + [MigrationInsert(key, now)];
      InsertNext(table, earlier, keys - {key}, key, now);
      assert keys - {key} + {key} == keys;
    }
  }

  /**
    What it writes is a run of insertions of unverified rows, so what holds of every run of the store
    holds as well when other operations come between them.
   */
  lemma MigrationIsInserts(table: Table, legacy: Legacy, now: Time) returns (ops: seq<Op>)
    ensures AllInserts(ops) && Run(table, ops) == Migrated(table, legacy, now)
  {
    hide LegacyClaims, IsNormalized, Run, WithMissing, IsStrongest;
    LegacyClaimsNormalized(legacy);
    ops := MissingIsInserts(table, MigrationKeys(ClaimKeys(LegacyClaims(legacy))), now);
  }
}
