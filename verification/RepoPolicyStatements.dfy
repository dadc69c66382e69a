/**
  What the statements and the decision of the policy store come to, in terms of the arguments alone:
  the words of a listing, the flags of the rows and the names of operations.
 */
module RepoPolicyStatements {
  import opened Wrappers
  import opened Text
  import opened ScopePolicy
  import opened RepoPolicyTable
  import opened RepoPolicy

  // ---------------------------------------------------------------------------------------
  // Words.

  /** The word that `text` spells, white space and case aside. */
  function Word(text: string): string { Lower(Trim(text)) }

  /** The words under which a kind of listing is known. */
  function WordsFor(kind: PolicyKind): set<string> {
    match kind
    case OptOut => {"opt_out", "opt-out", "optout"}
    case Denylist => {"denylist", "blocklist", "deny"}
    case Allowlist => {"allowlist", "allow"}
    case Trusted => {"trusted", "trust"}
  }

  lemma ParsedExactlyWhenSpelled(text: string, kind: PolicyKind)
    ensures ParseKind(text) == Some(kind) <==> Word(text) in WordsFor(kind)
  {
    hide Lower, Trim;
  }

  function KindOfList(t: RepoListType): PolicyKind {
    match t
    case AllowlistType => Allowlist
    case DenylistType => Denylist
    case OptOutType => OptOut
  }

  /**
    The list editor and the store read the same words the same way; the store alone also knows
    "deny", "allow", "trusted" and "trust".
   */
  lemma ParsersAgreeExactlyWhen(text: string)
    ensures ParseListType(text).Some? ==> ParseKind(text) == Some(KindOfList(ParseListType(text).value))
    ensures ParseListType(text).None? && ParseKind(text).Some? <==> Word(text) in {"deny", "allow", "trusted", "trust"}
  {
    hide Lower, Trim;
  }

  // ---------------------------------------------------------------------------------------
  // Statements.

  /** An upsert writes its row, and leaves a verified opt-out that stands in its place. */
  lemma UpsertExactly(table: Table, entry: Entry, name: string)
    requires NormalizeRepoName(entry.repository) == Some(name)
    ensures var key := RowKey(name, entry.kind);
      Upserted(table, entry)
        == if entry.kind == OptOut && key in table && table[key].verified then table else table[key := entry.row]
  {
    hide NormalizeRepoName;
  }

  lemma RemoveExactly(table: Table, repository: string, kind: PolicyKind, name: string)
    requires NormalizeRepoName(repository) == Some(name)
    ensures var key := RowKey(name, kind);
      Removed(table, repository, kind) == if kind == OptOut && key in table && table[key].verified then table
        else table - {key}
  {
    hide NormalizeRepoName;
  }

  /** A listing is written under the kind its word names; an opt-out already verified stays,
    and an unknown word writes nothing. */
  lemma ListingExactly(table: Table, repository: string, listType: string, source: string, now: Time, name: string)
    requires NormalizeRepoName(repository) == Some(name)
    ensures var after, word, row := ListingRecorded(table, repository, listType, source, now), Word(listType),
      Row(source, "", false, now);
      && (word in {"denylist", "blocklist", "deny"} ==> after == table[RowKey(name, Denylist) := row])
      && (word in {"allowlist", "allow"} ==> after == table[RowKey(name, Allowlist) := row])
      && (word in {"trusted", "trust"} ==> after == table[RowKey(name, Trusted) := row])
      && (word in {"opt_out", "opt-out", "optout"} ==>
            after == if RowKey(name, OptOut) in table && table[RowKey(name, OptOut)].verified then table
                     else table[RowKey(name, OptOut) := row])
      && (word !in {"denylist", "blocklist", "deny", "allowlist", "allow", "trusted", "trust", "opt_out", "opt-out",
        "optout"} ==>
            after == table)
  {
    NormalizeIdempotent(repository);
    hide NormalizeRepoName, Lower, Trim;
  }

  /** Listing a repository as denied or opted out, under any of the words for it, excludes it from everything. */
  lemma ListingBinds(table: Table, repository: string, listType: string, source: string, now: Time, name: string)
    requires NormalizeRepoName(repository) == Some(name)
    requires Word(listType) in {"denylist", "blocklist", "deny", "opt_out", "opt-out", "optout"}
    ensures Excluded(ListingRecorded(table, repository, listType, source, now), name)
  {
    hide NormalizeRepoName, ListingRecorded, Word, Excluded;
    ListingExactly(table, repository, listType, source, now, name);
    ListedExclusionBinds(ListingRecorded(table, repository, listType, source, now), name);
  }

  /** An authority's assertion is stored unless a verified row of another source, or a newer one, stands there. */
  lemma AssertionExactly(table: Table, repository: string, source: string, notes: string, updatedAt: Time, name: string)
    requires NormalizeRepoName(repository) == Some(name)
    ensures var key := RowKey(name, OptOut);
      VerifiedAsserted(table, repository, source, notes, updatedAt)
        == if key in table && table[key].verified && (table[key].source != source || updatedAt < table[key].updatedAt)
           then table else table[key := Row(source, notes, true, updatedAt)]
  {
    hide NormalizeRepoName;
  }

  /** Its revocation deletes exactly a verified row of the same source that is not newer. */
  lemma RevocationExactly(table: Table, repository: string, source: string, updatedAt: Time, name: string)
    requires NormalizeRepoName(repository) == Some(name)
    ensures var key := RowKey(name, OptOut);
      VerifiedRevoked(table, repository, source, updatedAt)
        == if key in table && table[key].verified && table[key].source == source && table[key].updatedAt <= updatedAt
           then table - {key} else table
  {
    hide NormalizeRepoName;
  }

  // ---------------------------------------------------------------------------------------
  // Decisions.

  lemma TrimTwice(text: string)
    ensures Trim(Trim(text)) == Trim(text)
  {
    StripFixed(Trim(text), IsWhitespace);
    hide Strip;
  }

  /**
    A repository is allowed exactly when its name is valid, it is neither opted out nor denied, it is on the
    allowlist if there is one, and it is trusted if the operation is one of the three that need it.
   */
  lemma AllowedExactlyWhen(table: Table, repository: string, product: string, operation: string)
    ensures var decision := Evaluate(table, repository, product, operation);
      && decision.product == Trim(product) && decision.operation == Trim(operation)
      && (decision.allowed <==>
            && NormalizeRepoName(repository).Some?
            && var name := NormalizeRepoName(repository).value;
               && RowKey(name, OptOut) !in table && RowKey(name, Denylist) !in table
               && ((exists key :: key in table && key.kind == Allowlist) ==> RowKey(name, Allowlist) in table)
               && (Word(operation) in {"execute_repository_tests", "execute_host_tests", "broader_sandbox"} ==>
                     RowKey(name, Trusted) in table))
  {
    TrimTwice(operation);
    hide NormalizeRepoName, Trim, Lower;
    if NormalizeRepoName(repository).Some? {
      NormalizeIdempotent(repository);
    }
  }

  /** The set-based view refuses for the same reason as the evaluator. */
  lemma ReasonsAgree(table: Table, repository: string, product: string, operation: string)
    requires NormalizedTable(table)
    ensures var chain, answer := Evaluate(table, repository, product, operation).chain,
      ScopeDecision(table, repository);
      && chain != []
      && (answer == InvalidRepo <==> chain[|chain| - 1] == NameInvalid)
      && (answer == BlockedOptOut <==> chain[|chain| - 1] == OptOutExcluded)
      && (answer == BlockedDenylist <==> chain[|chain| - 1] == DenylistExcluded)
      && (answer == BlockedAllowlist <==> chain[|chain| - 1] == AllowlistNotListed)
  {
    hide NormalizeRepoName, NormalizeSet, Repositories, OperationRequiresTrust, AllowlistIsConfigured, Trim;
    var name := NormalizeRepoName(repository);
    if name.Some? {
      NormalizeIdempotent(repository);
      AllowlistConfigured(table);
      RepositoriesMembers(table, Allowlist, name.value);
      RepositoriesMembers(table, Denylist, name.value);
      RepositoriesMembers(table, OptOut, name.value);
    }
  }
}
