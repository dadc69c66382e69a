/** HiveCore's two bulk edits of the shared policy table (products/hive-core/backend/src/db.rs). */
module HiveCorePolicies {
  import opened Wrappers
  import opened Text
  import opened ScopePolicy
  import opened RepoPolicyTable
  import opened RepoPolicy
  import opened RepoPolicyStore

  const LIST_NOTES := "Set from HiveCore suite settings."

  function ListRow(now: Time): Row { Row("operator", LIST_NOTES, false, now) }

  // ---------------------------------------------------------------------------------------
  // The settings form: two free-text lists.

  /** The names a list of candidates spells. */
  function NamesIn(candidates: seq<string>): set<string> {
    set c | c in candidates && NormalizeRepoName(c).Some? :: NormalizeRepoName(c).value
  }

  function CandidateOps(candidates: seq<string>, kind: PolicyKind, now: Time): seq<Op> {
    if candidates == [] then []
    else
      CandidateOps(candidates[..|candidates| - 1], kind, now)
      + match NormalizeRepoName(candidates[|candidates| - 1])
        case None => []
        case Some(name) => [Upsert(Entry(name, kind, ListRow(now)))]
  }

  function FieldOps(text: string, kind: PolicyKind, now: Time): seq<Op> {
    CandidateOps(SplitBy(text, IsListSeparator), kind, now)
  }

  const TEXT_KINDS: ListingKinds := {Allowlist, Denylist}

  /** What saving the form does, as operations on the store. */
  function TextOps(allowlist: string, denylist: string, now: Time): seq<Op> {
    [Clear(TEXT_KINDS)] + FieldOps(allowlist, Allowlist, now) + FieldOps(denylist, Denylist, now)
  }

  lemma CandidateOpsNext(table: Table, candidates: seq<string>, kind: PolicyKind, now: Time, i: nat)
    requires i < |candidates|
    ensures Run(table, CandidateOps(candidates[..i + 1], kind, now))
      == var before := Run(table, CandidateOps(candidates[..i], kind, now));
         match NormalizeRepoName(candidates[i])
         case None => before
         case Some(name) => Upserted(before, Entry(name, kind, ListRow(now)))
  {
    hide NormalizeRepoName, Upserted;
    assert candidates[..i + 1][..i] == candidates[..i];
    var ops := CandidateOps(candidates[..i], kind, now);
    match NormalizeRepoName(candidates[i]) {
      case None => assert ops + [] == ops;
      case Some(name) =>
        RunAppend(table, ops, [Upsert(Entry(name, kind, ListRow(now)))]);
        RunOne(Run(table, ops), Upsert(Entry(name, kind, ListRow(now))));
    }
  }

  lemma ClearFirst(table: Table, kinds: ListingKinds, ops: seq<Op>)
    ensures Run(table, [Clear(kinds)] + ops) == Run(Cleared(table, kinds), ops)
  {
    RunOne(table, Clear(kinds));
    RunAppend(table, [Clear(kinds)], ops);
    hide Run, Cleared;
  }

  lemma NoCandidates(table: Table, kind: PolicyKind, now: Time)
    ensures Run(table, CandidateOps([], kind, now)) == table
  {}

  method AddCandidates(store: RepoPolicyStore, candidates: seq<string>, kind: PolicyKind, now: Time)
    modifies store
    ensures store.rows == Run(old(store.rows), CandidateOps(candidates, kind, now))
  {
    hide NormalizeRepoName, Upserted, CandidateOps, Run;
    NoCandidates(store.rows, kind, now);
    assert candidates[..0] == [];
    for i := 0 to |candidates|
      invariant store.rows == Run(old(store.rows), CandidateOps(candidates[..i], kind, now))
    {
      CandidateOpsNext(old(store.rows), candidates, kind, now, i);
      var name := NormalizeRepoName(candidates[i]);
      if name.Some? {
        var _ := store.Upsert(Entry(name.value, kind, ListRow(now)));
      }
    }
    assert candidates[..|candidates|] == candidates;
  }

  lemma TextRun(table: Table, allowlist: string, denylist: string, now: Time)
    ensures Run(table, TextOps(allowlist, denylist, now))
      == Run(Run(Cleared(table, TEXT_KINDS), FieldOps(allowlist, Allowlist, now)), FieldOps(denylist, Denylist, now))
  {
    hide FieldOps, Run, Cleared;
    var allow := FieldOps(allowlist, Allowlist, now);
    RunAppend(table, [Clear(TEXT_KINDS)] + allow, FieldOps(denylist, Denylist, now));
    ClearFirst(table, TEXT_KINDS, allow);
  }

  /** One transaction: both lists are cleared, and the names the two fields spell are entered. */
  method SaveRepoListText(store: RepoPolicyStore, allowlist: string, denylist: string, now: Time)
    modifies store
    ensures store.rows == Run(old(store.rows), TextOps(allowlist, denylist, now))
  {
    hide Run, Cleared, SplitBy, CandidateOps, TextOps;
    TextRun(store.rows, allowlist, denylist, now);
    store.rows := Cleared(store.rows, TEXT_KINDS);
    AddCandidates(store, SplitBy(allowlist, IsListSeparator), Allowlist, now);
    AddCandidates(store, SplitBy(denylist, IsListSeparator), Denylist, now);
  }

  lemma {:induction false} AfterCandidates(
    table: Table, candidates: seq<string>, kind: PolicyKind, now: Time, key: RowKey)
    requires kind != OptOut
    ensures var after := Run(table, CandidateOps(candidates, kind, now));
      if key.kind == kind && key.repository in NamesIn(candidates)
      then key in after && after[key] == ListRow(now)
      else (key in after <==> key in table) && (key in table ==> after[key] == table[key])
  {
    hide NormalizeRepoName, Run;
    if candidates == [] {
      NoCandidates(table, kind, now);
    } else {
      var n := |candidates| - 1;
      var init, last := candidates[..n], candidates[n];
      AfterCandidates(table, init, kind, now, key);
      CandidateOpsNext(table, candidates, kind, now, n);
      assert candidates[..n + 1] == candidates;
      assert candidates == init + [last];
      NormalizeIdempotent(last);
    }
  }

  /**
    After the form is saved, a name is on a list exactly when the list's field spells it, and every trust
    row and every opt-out, an operator's own included, is as it was.
   */
  lemma TextSavedExactly(table: Table, allowlist: string, denylist: string, now: Time, key: RowKey)
    ensures var after := Run(table, TextOps(allowlist, denylist, now));
      match key.kind
      case Allowlist => key in after <==> key.repository in NamesIn(SplitBy(allowlist, IsListSeparator))
      case Denylist => key in after <==> key.repository in NamesIn(SplitBy(denylist, IsListSeparator))
      case _ => (key in after <==> key in table) && (key in table ==> after[key] == table[key])
  {
    hide SplitBy, NamesIn, Run, CandidateOps, TextOps;
    TextRun(table, allowlist, denylist, now);
    var cleared := Cleared(table, TEXT_KINDS);
    var allow := SplitBy(allowlist, IsListSeparator);
    AfterCandidates(cleared, allow, Allowlist, now, key);
    AfterCandidates(
      Run(cleared, CandidateOps(allow, Allowlist, now)), SplitBy(denylist, IsListSeparator), Denylist, now, key);
  }

  // ---------------------------------------------------------------------------------------
  // The form shows the lists it saves.

  /** The text of a field: the listed names, separated by a comma and a space. */
  function JoinNames(names: seq<string>): string {
    if |names| == 0 then ""
    else if |names| == 1 then names[0]
    else names[0] + ", " + JoinNames(names[1..])
  }

  predicate HasSeparator(name: string) {
    exists i :: 0 <= i < |name| && IsListSeparator(name[i])
  }

  lemma NoParts()
    ensures NameParts([""]) == []
  {
    hide Strip, Lower;
    StripFixed("", IsWhitespace);
    assert [""][1..] == [];
    assert CleanPart("") == "";
  }

  lemma NothingNormalizes()
    ensures NormalizeRepoName("") == None
  {
    StripFixed("", IsWhitespace);
    StripFixed("", IsSlash);
    SplitWhole("", IsSlash);
    NoParts();
    hide Strip, SplitBy, NameParts;
  }

  lemma NamesInNone()
    ensures NamesIn([""]) == {}
  {
    hide NormalizeRepoName;
    NothingNormalizes();
  }

  lemma NamesInConcat(a: seq<string>, b: seq<string>)
    ensures NamesIn(a + b) == NamesIn(a) + NamesIn(b)
  {
    hide NormalizeRepoName;
    assert forall c :: c in a + b <==> c in a || c in b;
  }

  /** A space in front does not change what a candidate names. */
  lemma PaddedName(pad: string, name: string)
    requires pad == "" || pad == " "
    ensures NormalizeRepoName(pad + name) == NormalizeRepoName(name)
  {
    hide Strip, SplitBy, NameParts;
    StripPadded(pad, name, "", IsWhitespace);
    assert pad + name + "" == pad + name;
  }

  lemma NamesInOne(candidate: string, name: string)
    requires NormalizeRepoName(candidate) == Some(name)
    ensures NamesIn([candidate]) == {name}
  {
    hide NormalizeRepoName;
    assert forall c :: c in [candidate] <==> c == candidate;
  }

  /** A listed name is one piece of its field, alone or in front of a comma. */
  lemma NameIsPiece(pad: string, name: string, rest: string)
    requires (pad == "" || pad == " ") && !HasSeparator(name)
    ensures SplitBy(pad + name, IsListSeparator) == [pad + name]
    ensures SplitBy(pad + name + [','] + rest, IsListSeparator) == [pad + name] + SplitBy(rest, IsListSeparator)
  {
    assert !IsListSeparator(' ') && IsListSeparator(',');
    hide IsListSeparator;
    SplitWhole(pad + name, IsListSeparator);
    SplitAtSeparator(pad + name, ',', rest, IsListSeparator);
  }

  lemma {:induction false} JoinedNames(pad: string, names: seq<string>)
    requires (pad == "" || pad == " ") && names != []
    requires forall name :: name in names ==> IsNormalized(name) && !HasSeparator(name)
    ensures NamesIn(SplitBy(pad + JoinNames(names), IsListSeparator)) == set name | name in names
    decreases |names|
  {
    hide NormalizeRepoName, HasSeparator, NamesIn, SplitBy;
    var first, rest := names[0], names[1..];
    assert names == [first] + rest;
    NameIsPiece(pad, first, " " + JoinNames(rest));
    PaddedName(pad, first);
    NamesInOne(pad + first, first);
    if rest == [] {
    } else {
      assert pad + JoinNames(names) == pad + first + [','] + (" " + JoinNames(rest));
      NamesInConcat([pad + first], SplitBy(" " + JoinNames(rest), IsListSeparator));
      JoinedNames(" ", rest);
    }
  }

  lemma {:induction false} SplitKeeps(s: string, p: char -> bool, c: char)
    requires c !in s
    ensures forall piece :: piece in SplitBy(s, p) ==> c !in piece
  {
    if s == "" {
    } else {
      SplitKeeps(s[1..], p, c);
      var rest := SplitBy(s[1..], p);
      assert rest[0] in rest;
      assert s[0] in s;
    }
  }

  lemma CleanPartKeeps(piece: string, c: char)
    requires c !in piece && IsListSeparator(c)
    ensures c !in CleanPart(piece)
  {
    StripKeeps(piece, IsWhitespace, c);
    var t := Trim(piece);
    forall i | 0 <= i < |t|
      ensures Lower(t)[i] != c
    {
      assert t[i] in t;
    }
  }

  lemma {:induction false} PartsKeep(pieces: seq<string>, c: char)
    requires IsListSeparator(c) && forall piece :: piece in pieces ==> c !in piece
    ensures forall part :: part in NameParts(pieces) ==> c !in part
  {
    hide CleanPart;
    if pieces == [] {
    } else {
      CleanPartKeeps(pieces[0], c);
      PartsKeep(pieces[1..], c);
      assert pieces == [pieces[0]] + pieces[1..];
    }
  }

  /** A name in stored spelling is made of characters of what it was read from, lower-cased, and a slash. */
  lemma NormalizeKeeps(value: string, c: char)
    requires c !in value && IsListSeparator(c) && NormalizeRepoName(value).Some?
    ensures c !in NormalizeRepoName(value).value
  {
    hide Strip, SplitBy, NameParts, IsWhitespace, IsSlash;
    var stripped := Strip(Trim(value), IsSlash);
    StripKeeps(value, IsWhitespace, c);
    StripKeeps(Trim(value), IsSlash, c);
    SplitKeeps(stripped, IsSlash, c);
    PartsKeep(SplitBy(stripped, IsSlash), c);
    hide Trim;
    var parts := NameParts(SplitBy(stripped, IsSlash));
    assert parts[0] in parts && parts[1] in parts;
  }

  /** No field can spell a name that holds a separator. */
  lemma SeparatorNeverSpelled(text: string, name: string)
    requires name in NamesIn(SplitBy(text, IsListSeparator))
    ensures !HasSeparator(name)
  {
    var pieces := SplitBy(text, IsListSeparator);
    hide NormalizeRepoName, SplitBy, IsListSeparator;
    var piece :| piece in pieces && NormalizeRepoName(piece) == Some(name);
    var k :| 0 <= k < |pieces| && pieces[k] == piece;
    forall i | 0 <= i < |name|
      ensures !IsListSeparator(name[i])
    {
      if IsListSeparator(name[i]) {
        assert name[i] !in piece by {
          assert forall j :: 0 <= j < |piece| ==> !IsListSeparator(pieces[k][j]);
        }
        NormalizeKeeps(piece, name[i]);
      }
    }
  }

  lemma SplitNothing()
    ensures SplitBy("", IsListSeparator) == [""]
  {}

  /** A field reads back as the list it shows exactly when no listed name holds a separator. */
  lemma FieldReadsBackExactlyWhen(names: seq<string>)
    requires forall name :: name in names ==> IsNormalized(name)
    ensures NamesIn(SplitBy(JoinNames(names), IsListSeparator)) == (set name | name in names)
      <==> forall name :: name in names ==> !HasSeparator(name)
  {
    hide IsNormalized, HasSeparator, NamesIn, SplitBy;
    if names == [] {
      NamesInNone();
      assert SplitBy("", IsListSeparator) == [""] by { SplitNothing(); }
    } else if forall name :: name in names ==> !HasSeparator(name) {
      JoinedNames("", names);
      assert "" + JoinNames(names) == JoinNames(names);
    } else {
      var name :| name in names && HasSeparator(name);
      if name in NamesIn(SplitBy(JoinNames(names), IsListSeparator)) {
        SeparatorNeverSpelled(JoinNames(names), name);
      }
      assert name in (set name | name in names);
    }
  }

  ghost predicate Shows(names: seq<string>, table: Table, kind: PolicyKind) {
    forall name :: name in names <==> RowKey(name, kind) in table
  }

  /** The field reads back as the list. */
  ghost predicate ReadsBack(names: seq<string>) {
    forall name :: name in NamesIn(SplitBy(JoinNames(names), IsListSeparator)) <==> name in names
  }

  lemma ReadsBackSet(names: seq<string>)
    ensures ReadsBack(names) <==> NamesIn(SplitBy(JoinNames(names), IsListSeparator)) == set name | name in names
  {
    hide NamesIn, SplitBy, JoinNames;
  }

  lemma RowsKept(before: Table, after: Table, allowed: seq<string>, denied: seq<string>)
    requires Shows(allowed, before, Allowlist) && Shows(denied, before, Denylist)
    requires forall key :: key in after <==>
      match key.kind
      case Allowlist => key.repository in NamesIn(SplitBy(JoinNames(allowed), IsListSeparator))
      case Denylist => key.repository in NamesIn(SplitBy(JoinNames(denied), IsListSeparator))
      case _ => key in before
    ensures after.Keys == before.Keys <==> ReadsBack(allowed) && ReadsBack(denied)
  {
    hide NamesIn, SplitBy, JoinNames;
    assert forall key: RowKey :: key == RowKey(key.repository, key.kind);
    if after.Keys == before.Keys {
      forall name
        ensures name in NamesIn(SplitBy(JoinNames(allowed), IsListSeparator)) <==> name in allowed
        ensures name in NamesIn(SplitBy(JoinNames(denied), IsListSeparator)) <==> name in denied
      {
        assert RowKey(name, Allowlist) in after <==> RowKey(name, Allowlist) in before;
        assert RowKey(name, Denylist) in after <==> RowKey(name, Denylist) in before;
      }
    } else if ReadsBack(allowed) && ReadsBack(denied) {
      forall key
        ensures key in after <==> key in before
      {
        assert key == RowKey(key.repository, key.kind);
      }
    }
  }

  /**
    Saving the form as it was shown keeps every row where it is exactly when no name on the two lists
    holds a separator.
   */
  lemma SavingWhatIsShownExactlyWhen(table: Table, allowed: seq<string>, denied: seq<string>, now: Time)
    requires NormalizedTable(table) && Shows(allowed, table, Allowlist) && Shows(denied, table, Denylist)
    ensures Run(table, TextOps(JoinNames(allowed), JoinNames(denied), now)).Keys == table.Keys
      <==> forall name :: name in allowed || name in denied ==> !HasSeparator(name)
  {
    assert forall name :: name in allowed ==> RowKey(name, Allowlist) in table;
    assert forall name :: name in denied ==> RowKey(name, Denylist) in table;
    hide IsNormalized, HasSeparator, NamesIn, SplitBy, Run, TextOps, JoinNames, ReadsBack;
    var after := Run(table, TextOps(JoinNames(allowed), JoinNames(denied), now));
    forall key {
      TextSavedExactly(table, JoinNames(allowed), JoinNames(denied), now, key);
    }
    RowsKept(table, after, allowed, denied);
    ReadsBackSet(allowed);
    ReadsBackSet(denied);
    FieldReadsBackExactlyWhen(allowed);
    FieldReadsBackExactlyWhen(denied);
  }

  lemma CommaPart()
    ensures IsNamePart("a,b") && IsNamePart("c")
  {
    assert Lower("a,b") == "a,b" && Lower("c") == "c";
  }

  /** For example: a name the stores accept, and the form cannot show. */
  lemma CommaIsAccepted()
    ensures IsNormalized("a,b/c") && HasSeparator("a,b/c")
  {
    hide IsNamePart, NormalizeRepoName;
    CommaPart();
    assert "a,b" + "/" + "c" == "a,b/c";
    JoinedPartsNormalize("a,b", "c");
    assert "a,b/c"[1] == ',';
  }

  // ---------------------------------------------------------------------------------------
  // The policy editor: the whole operator-owned set at once.

  datatype Policy = Policy(
    repository: string, excluded: bool, allowlisted: bool, trusted: bool, notes: string, updatedAt: Time)

  function PolicyEntry(policy: Policy, kind: PolicyKind): Entry {
    Entry(policy.repository, kind, Row("operator", policy.notes, false, policy.updatedAt))
  }

  function KindsOf(policy: Policy): seq<PolicyKind> {
    (if policy.excluded then [Denylist] else []) + (if policy.allowlisted then [Allowlist] else [])
    + (if policy.trusted then [Trusted] else [])
  }

  function EntryOps(policy: Policy, kinds: seq<PolicyKind>): seq<Op> {
    if kinds == [] then []
    else EntryOps(policy, kinds[..|kinds| - 1]) + [Upsert(PolicyEntry(policy, kinds[|kinds| - 1]))]
  }

  function PolicyOps(policies: seq<Policy>): seq<Op> {
    if policies == [] then []
    else
      var last := policies[|policies| - 1];
      PolicyOps(policies[..|policies| - 1]) + EntryOps(last, KindsOf(last))
  }

  const OPERATOR_KINDS: ListingKinds := {Denylist, Allowlist, Trusted}

  function ReplaceOps(policies: seq<Policy>): seq<Op> {
    [Clear(OPERATOR_KINDS)] + PolicyOps(policies)
  }

  /** Names are only looked at where something is to be written. */
  predicate Acceptable(policy: Policy) {
    KindsOf(policy) != [] ==> NormalizeRepoName(policy.repository).Some?
  }

  lemma EntryOpsNext(table: Table, policy: Policy, kinds: seq<PolicyKind>, i: nat)
    requires i < |kinds|
    ensures Run(table, EntryOps(policy, kinds[..i + 1]))
      == Upserted(Run(table, EntryOps(policy, kinds[..i])), PolicyEntry(policy, kinds[i]))
  {
    hide Upserted;
    assert kinds[..i + 1][..i] == kinds[..i];
    RunAppend(table, EntryOps(policy, kinds[..i]), [Upsert(PolicyEntry(policy, kinds[i]))]);
    RunOne(Run(table, EntryOps(policy, kinds[..i])), Upsert(PolicyEntry(policy, kinds[i])));
  }

  lemma NoEntries(table: Table, policy: Policy)
    ensures Run(table, EntryOps(policy, [])) == table
    ensures Run(table, PolicyOps([])) == table
  {}

  method WritePolicy(store: RepoPolicyStore, policy: Policy) returns (r: Result<(), string>)
    modifies store
    ensures r.Ok? <==> Acceptable(policy)
    ensures r.Ok? ==> store.rows == Run(old(store.rows), EntryOps(policy, KindsOf(policy)))
  {
    hide NormalizeRepoName, Upserted, EntryOps, Run, KindsOf;
    var kinds := KindsOf(policy);
    NoEntries(store.rows, policy);
    assert kinds[..0] == [];
    for i := 0 to |kinds|
      invariant store.rows == Run(old(store.rows), EntryOps(policy, kinds[..i]))
      invariant i > 0 ==> NormalizeRepoName(policy.repository).Some?
    {
      EntryOpsNext(old(store.rows), policy, kinds, i);
      var written := store.Upsert(PolicyEntry(policy, kinds[i]));
      if written.Err? {
        return Err(written.error);
      }
    }
    assert kinds[..|kinds|] == kinds;
    return Ok(());
  }

  lemma PolicyOpsNext(table: Table, policies: seq<Policy>, i: nat)
    requires i < |policies|
    ensures Run(table, PolicyOps(policies[..i + 1]))
      == Run(Run(table, PolicyOps(policies[..i])), EntryOps(policies[i], KindsOf(policies[i])))
  {
    hide EntryOps, KindsOf;
    assert policies[..i + 1][..i] == policies[..i];
    RunAppend(table, PolicyOps(policies[..i]), EntryOps(policies[i], KindsOf(policies[i])));
  }

  lemma ReplaceRun(table: Table, policies: seq<Policy>)
    ensures Run(table, ReplaceOps(policies)) == Run(Cleared(table, OPERATOR_KINDS), PolicyOps(policies))
  {
    hide PolicyOps, Run, Cleared;
    ClearFirst(table, OPERATOR_KINDS, PolicyOps(policies));
  }

  lemma PolicyStart(table: Table)
    ensures Run(table, PolicyOps([])) == table
  {}

  /**
    One transaction: everything an operator owns is cleared and the given set entered, or, with a bad
    name, nothing happens.
   */
  method ReplaceRepositoryPolicies(store: RepoPolicyStore, policies: seq<Policy>) returns (r: Result<(), string>)
    modifies store
    ensures r.Ok? <==> forall i :: 0 <= i < |policies| ==> Acceptable(policies[i])
    ensures store.rows == if r.Ok? then Run(old(store.rows), ReplaceOps(policies)) else old(store.rows)
  {
    hide Acceptable, PolicyOps, ReplaceOps, Run, Cleared, EntryOps, KindsOf;
    var before := store.rows;
    ReplaceRun(before, policies);
    store.rows := Cleared(store.rows, OPERATOR_KINDS);
    ghost var cleared := store.rows;
    if policies != [] {
      NoEntries(cleared, policies[0]);
    }
    assert policies[..0] == [];
    PolicyStart(cleared);
    for i := 0 to |policies|
      invariant store.rows == Run(cleared, PolicyOps(policies[..i]))
      invariant forall j :: 0 <= j < i ==> Acceptable(policies[j])
    {
      PolicyOpsNext(cleared, policies, i);
      var written := WritePolicy(store, policies[i]);
      if written.Err? {
        store.rows := before;  // the transaction is rolled back
        return Err(written.error);
      }
    }
    assert policies[..|policies|] == policies;
    return Ok(());
  }

  /** Some policy of the set asks for this row. */
  ghost predicate Asked(policies: seq<Policy>, key: RowKey) {
    exists i :: 0 <= i < |policies| && NormalizeRepoName(policies[i].repository) == Some(key.repository)
      && key.kind in KindsOf(policies[i])
  }

  lemma {:induction false} AfterEntries(table: Table, policy: Policy, kinds: seq<PolicyKind>, key: RowKey)
    requires OptOut !in kinds && (kinds != [] ==> NormalizeRepoName(policy.repository).Some?)
    ensures var after := Run(table, EntryOps(policy, kinds));
      if NormalizeRepoName(policy.repository) == Some(key.repository) && key.kind in kinds then key in after
      else (key in after <==> key in table) && (key in table ==> after[key] == table[key])
  {
    hide NormalizeRepoName, Run;
    if kinds == [] {
      NoEntries(table, policy);
    } else {
      var n := |kinds| - 1;
      AfterEntries(table, policy, kinds[..n], key);
      EntryOpsNext(table, policy, kinds, n);
      assert kinds[..n + 1] == kinds;
      assert kinds == kinds[..n] + [kinds[n]];
    }
  }

  lemma AskedNext(policies: seq<Policy>, key: RowKey)
    requires policies != []
    ensures var n := |policies| - 1;
      Asked(policies, key) <==>
        || Asked(policies[..n], key)
        || (NormalizeRepoName(policies[n].repository) == Some(key.repository) && key.kind in KindsOf(policies[n]))
  {
    hide NormalizeRepoName, KindsOf;
    var n := |policies| - 1;
    assert forall i :: 0 <= i < n ==> policies[..n][i] == policies[i];
  }

  lemma {:induction false} AfterPolicies(table: Table, policies: seq<Policy>, key: RowKey)
    requires forall i :: 0 <= i < |policies| ==> Acceptable(policies[i])
    ensures var after := Run(table, PolicyOps(policies));
      if Asked(policies, key) then key in after
      else (key in after <==> key in table) && (key in table ==> after[key] == table[key])
  {
    hide NormalizeRepoName, Run, EntryOps;
    if policies == [] {
      PolicyStart(table);
    } else {
      var n := |policies| - 1;
      AfterPolicies(table, policies[..n], key);
      PolicyOpsNext(table, policies, n);
      assert policies[..n + 1] == policies;
      AfterEntries(Run(table, PolicyOps(policies[..n])), policies[n], KindsOf(policies[n]), key);
      hide KindsOf;
      AskedNext(policies, key);
    }
  }

  /**
    Afterwards the operator's rows are exactly those the set asks for, and every opt-out is as it was:
    leaving one out does not revoke it.
   */
  lemma ReplacedExactly(table: Table, policies: seq<Policy>, key: RowKey)
    requires forall i :: 0 <= i < |policies| ==> Acceptable(policies[i])
    ensures var after := Run(table, ReplaceOps(policies));
      if key.kind == OptOut then (key in after <==> key in table) && (key in table ==> after[key] == table[key])
      else key in after <==> Asked(policies, key)
  {
    hide NormalizeRepoName, Run, PolicyOps, Acceptable;
    ReplaceRun(table, policies);
    AfterPolicies(Cleared(table, OPERATOR_KINDS), policies, key);
  }

  // ---------------------------------------------------------------------------------------
  // In terms of the flags and the texts alone.

  /** The characters that end a name in a field. */
  lemma SeparatorsAre(name: string)
    ensures HasSeparator(name) <==> ',' in name || ';' in name || '\n' in name || '\r' in name
  {}

  /** A row saved from a field is the operator's, and says where it came from. */
  lemma TextRow(table: Table, allowlist: string, denylist: string, now: Time, key: RowKey)
    ensures var after := Run(table, TextOps(allowlist, denylist, now));
      key in after && (key.kind == Allowlist || key.kind == Denylist) ==>
        after[key] == Row("operator", "Set from HiveCore suite settings.", false, now)
  {
    hide SplitBy, NamesIn, Run, CandidateOps, TextOps;
    TextRun(table, allowlist, denylist, now);
    var cleared := Cleared(table, TEXT_KINDS);
    var allow := SplitBy(allowlist, IsListSeparator);
    AfterCandidates(cleared, allow, Allowlist, now, key);
    AfterCandidates(
      Run(cleared, CandidateOps(allow, Allowlist, now)), SplitBy(denylist, IsListSeparator), Denylist, now, key);
  }

  /** The policy asks for a row of this kind. */
  predicate Flags(policy: Policy, kind: PolicyKind) {
    match kind
    case OptOut => false
    case Denylist => policy.excluded
    case Allowlist => policy.allowlisted
    case Trusted => policy.trusted
  }

  lemma KindsAreFlags(policy: Policy, kind: PolicyKind)
    ensures kind in KindsOf(policy) <==> Flags(policy, kind)
  {}

  /** A set is accepted exactly when every policy that asks for anything names a repository. */
  lemma AcceptableExactlyWhen(policy: Policy)
    ensures Acceptable(policy) <==>
      (policy.excluded || policy.allowlisted || policy.trusted ==> NormalizeRepoName(policy.repository).Some?)
  {
    hide NormalizeRepoName;
  }

  ghost predicate AllAcceptable(policies: seq<Policy>) {
    forall i :: 0 <= i < |policies| ==>
      (policies[i].excluded || policies[i].allowlisted || policies[i].trusted ==>
         NormalizeRepoName(policies[i].repository).Some?)
  }

  lemma AskedExactlyWhen(policies: seq<Policy>, name: string, kind: PolicyKind)
    ensures Asked(policies, RowKey(name, kind)) <==>
      exists policy :: policy in policies && NormalizeRepoName(policy.repository) == Some(name) && Flags(policy, kind)
  {
    hide NormalizeRepoName, KindsOf, Flags;
    forall i | 0 <= i < |policies|
      ensures kind in KindsOf(policies[i]) <==> Flags(policies[i], kind)
    {
      KindsAreFlags(policies[i], kind);
    }
    assert forall i :: 0 <= i < |policies| ==> policies[i] in policies;
    assert RowKey(name, kind).repository == name && RowKey(name, kind).kind == kind;
  }

  lemma RowByFlag(table: Table, policies: seq<Policy>, name: string, kind: PolicyKind)
    requires AllAcceptable(policies) && kind != OptOut
    ensures RowKey(name, kind) in Run(table, ReplaceOps(policies)) <==>
      exists p :: p in policies && NormalizeRepoName(p.repository) == Some(name) && Flags(p, kind)
  {
    hide NormalizeRepoName, Run, ReplaceOps, Asked, Acceptable, Flags;
    forall i | 0 <= i < |policies|
      ensures Acceptable(policies[i])
    {
      AcceptableExactlyWhen(policies[i]);
    }
    ReplacedExactly(table, policies, RowKey(name, kind));
    AskedExactlyWhen(policies, name, kind);
    assert RowKey(name, kind).kind == kind;
  }

  /**
    After an accepted set a repository is denied exactly when a policy naming it excludes it, allowed when one
    allowlists it, trusted when one trusts it; and whatever a policy excludes is excluded.
   */
  lemma ReplacedByFlags(table: Table, policies: seq<Policy>, name: string)
    requires AllAcceptable(policies)
    ensures var after := Run(table, ReplaceOps(policies));
      && (RowKey(name, Denylist) in after <==>
            exists p :: p in policies && NormalizeRepoName(p.repository) == Some(name) && p.excluded)
      && (RowKey(name, Allowlist) in after <==>
            exists p :: p in policies && NormalizeRepoName(p.repository) == Some(name) && p.allowlisted)
      && (RowKey(name, Trusted) in after <==>
            exists p :: p in policies && NormalizeRepoName(p.repository) == Some(name) && p.trusted)
    ensures (exists p :: p in policies && NormalizeRepoName(p.repository) == Some(name) && p.excluded) ==>
      Excluded(Run(table, ReplaceOps(policies)), name)
  {
    hide NormalizeRepoName, Run, ReplaceOps, Excluded;
    RowByFlag(table, policies, name, Denylist);
    RowByFlag(table, policies, name, Allowlist);
    RowByFlag(table, policies, name, Trusted);
    var after := Run(table, ReplaceOps(policies));
    if RowKey(name, Denylist) in after {
      ListedExclusionBinds(after, name);
    }
  }

  lemma {:induction false} EntriesRow(table: Table, policy: Policy, kinds: seq<PolicyKind>, key: RowKey)
    requires OptOut !in kinds && NormalizeRepoName(policy.repository) == Some(key.repository) && key.kind in kinds
    ensures var after := Run(table, EntryOps(policy, kinds));
      key in after && after[key] == Row("operator", policy.notes, false, policy.updatedAt)
  {
    hide NormalizeRepoName, Run;
    var n := |kinds| - 1;
    EntryOpsNext(table, policy, kinds, n);
    assert kinds[..n + 1] == kinds && kinds == kinds[..n] + [kinds[n]];
    if kinds[n] == key.kind {
    } else {
      EntriesRow(table, policy, kinds[..n], key);
    }
  }

  /** This policy asks for the row, and no later one does. */
  ghost predicate LastToAsk(policies: seq<Policy>, i: nat, key: RowKey) {
    && i < |policies| && NormalizeRepoName(policies[i].repository) == Some(key.repository)
      && Flags(policies[i], key.kind)
    && forall j :: i < j < |policies| ==>
         !(NormalizeRepoName(policies[j].repository) == Some(key.repository) && Flags(policies[j], key.kind))
  }

  lemma NoOptOut(policy: Policy)
    ensures OptOut !in KindsOf(policy)
  {}

  lemma {:induction false} PoliciesRow(table: Table, policies: seq<Policy>, i: nat, key: RowKey)
    requires AllAcceptable(policies) && LastToAsk(policies, i, key)
    ensures var after := Run(table, PolicyOps(policies));
      key in after && after[key] == Row("operator", policies[i].notes, false, policies[i].updatedAt)
  {
    hide NormalizeRepoName, Run, EntryOps, PolicyOps, Flags, KindsOf;
    var n := |policies| - 1;
    var before := Run(table, PolicyOps(policies[..n]));
    PolicyOpsNext(table, policies, n);
    assert policies[..n + 1] == policies;
    KindsAreFlags(policies[n], key.kind);
    AcceptableExactlyWhen(policies[n]);
    NoOptOut(policies[n]);
    if i == n {
      EntriesRow(before, policies[n], KindsOf(policies[n]), key);
    } else {
      PoliciesRow(table, policies[..n], i, key);
      AfterEntries(before, policies[n], KindsOf(policies[n]), key);
    }
  }

  /** The row stored is the operator's, with the notes and time of the last policy that asks for it. */
  lemma ReplacedRow(table: Table, policies: seq<Policy>, i: nat, key: RowKey)
    requires AllAcceptable(policies) && LastToAsk(policies, i, key)
    ensures var after := Run(table, ReplaceOps(policies));
      key in after && after[key] == Row("operator", policies[i].notes, false, policies[i].updatedAt)
  {
    hide *;
    ReplaceRun(table, policies);
    PoliciesRow(Cleared(table, OPERATOR_KINDS), policies, i, key);
  }
}
