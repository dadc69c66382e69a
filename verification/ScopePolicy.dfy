/** Repository names and the set-based scope policy (crates/patchhive-product-core/src/scope_policy.rs). */
module ScopePolicy {
  import opened Wrappers
  import opened Text

  predicate NoSlash(s: string) {
    forall i :: 0 <= i < |s| ==> !IsSlash(s[i])
  }

  /** One path segment in stored spelling. */
  predicate IsNamePart(part: string) {
    && part != "" && NoSlash(part) && Lower(part) == part
    && !IsWhitespace(part[0]) && !IsWhitespace(part[|part| - 1])
  }

  function CleanPart(piece: string): string {
    Lower(Trim(piece))
  }

  /** The trimmed, lower-cased, non-empty path segments of a name. */
  function NameParts(pieces: seq<string>): seq<string> {
    if pieces == [] then []
    else
      var part := CleanPart(pieces[0]);
      (if part == "" then [] else [part]) + NameParts(pieces[1..])
  }

  lemma CleanPartIsPart(piece: string)
    requires NoSlash(piece)
    ensures CleanPart(piece) == "" || IsNamePart(CleanPart(piece))
  {
    var t := Trim(piece);
    assert '/' !in t by { StripKeeps(piece, IsWhitespace, '/'); }
    LowerIdempotent(t);
    forall i | 0 <= i < |t|
      ensures !IsSlash(Lower(t)[i])
    {
      assert t[i] in t;
    }
  }

  lemma {:induction false} NamePartsAreParts(pieces: seq<string>)
    requires forall i :: 0 <= i < |pieces| ==> NoSlash(pieces[i])
    ensures forall i :: 0 <= i < |NameParts(pieces)| ==> IsNamePart(NameParts(pieces)[i])
  {
    hide CleanPart, IsNamePart, NoSlash;
    if pieces == [] {
    } else {
      CleanPartIsPart(pieces[0]);
      NamePartsAreParts(pieces[1..]);
    }
  }

  function NormalizeRepoName(value: string): Option<string> {
    var parts := NameParts(SplitBy(Strip(Trim(value), IsSlash), IsSlash));
    if |parts| == 2 then Some(parts[0] + "/" + parts[1]) else None
  }

  /** A name in the one spelling the stores keep. */
  ghost predicate IsNormalized(name: string) {
    NormalizeRepoName(name) == Some(name)
  }

  lemma SplitName(owner: string, repo: string)
    requires NoSlash(owner) && NoSlash(repo)
    ensures SplitBy(owner + "/" + repo, IsSlash) == [owner, repo]
  {
    assert owner + "/" + repo == owner + ['/'] + repo;
    SplitAtSeparator(owner, '/', repo, IsSlash);
    SplitWhole(repo, IsSlash);
  }

  lemma NamePartsFixed(owner: string, repo: string)
    requires IsNamePart(owner) && IsNamePart(repo)
    ensures NameParts([owner, repo]) == [owner, repo]
  {
    hide Strip;
    hide IsWhitespace;
    StripFixed(owner, IsWhitespace);
    StripFixed(repo, IsWhitespace);
    assert [owner, repo][1..] == [repo];
    assert NameParts([repo]) == [repo] + NameParts([]);
  }

  lemma JoinedPartsNormalize(owner: string, repo: string)
    requires IsNamePart(owner) && IsNamePart(repo)
    ensures NormalizeRepoName(owner + "/" + repo) == Some(owner + "/" + repo)
  {
    hide Lower;
    hide IsWhitespace;
    var name := owner + "/" + repo;
    assert name[0] == owner[0] && name[|name| - 1] == repo[|repo| - 1];
    StripFixed(name, IsWhitespace);
    StripFixed(name, IsSlash);
    SplitName(owner, repo);
    NamePartsFixed(owner, repo);
  }

  /** Normalising twice is normalising once, so a stored name is its own lookup key. */
  lemma NormalizeIdempotent(value: string)
    ensures NormalizeRepoName(value).Some? ==> IsNormalized(NormalizeRepoName(value).value)
  {
    var pieces := SplitBy(Strip(Trim(value), IsSlash), IsSlash);
    NamePartsAreParts(pieces);
    var parts := NameParts(pieces);
    if |parts| == 2 {
      JoinedPartsNormalize(parts[0], parts[1]);
    }
  }

  function LowerAll(pieces: seq<string>): (r: seq<string>)
    ensures |r| == |pieces| && forall i :: 0 <= i < |pieces| ==> r[i] == Lower(pieces[i])
  {
    seq(|pieces|, i requires 0 <= i < |pieces| => Lower(pieces[i]))
  }

  lemma SplitHead(s: string)
    requires s != ""
    ensures var rest := SplitBy(s[1..], IsSlash);
      SplitBy(s, IsSlash) == if IsSlash(s[0]) then [""] + rest else [[s[0]] + rest[0]] + rest[1..]
  {}

  lemma LowerHead(c: char, rest: seq<string>)
    requires rest != []
    ensures LowerAll([""] + rest) == [""] + LowerAll(rest)
    ensures LowerAll([[c] + rest[0]] + rest[1..]) == [[LowerChar(c)] + LowerAll(rest)[0]] + LowerAll(rest)[1..]
  {
    hide LowerChar;
    assert Lower([c] + rest[0]) == [LowerChar(c)] + Lower(rest[0]);
  }

  lemma {:induction false} SplitLower(s: string)
    ensures SplitBy(Lower(s), IsSlash) == LowerAll(SplitBy(s, IsSlash))
  {
    hide LowerChar;
    if s == "" {
    } else {
      SplitLower(s[1..]);
      LowerSlices(s, 1);
      SplitHead(s);
      SplitHead(Lower(s));
      hide SplitBy, IsSlash;
      LowerHead(s[0], SplitBy(s[1..], IsSlash));
    }
  }

  lemma CleanPartLower(piece: string)
    ensures CleanPart(Lower(piece)) == CleanPart(piece)
  {
    StripLower(piece, IsWhitespace);
    LowerIdempotent(Trim(piece));
  }

  lemma {:induction false} NamePartsLower(pieces: seq<string>)
    ensures NameParts(LowerAll(pieces)) == NameParts(pieces)
  {
    hide CleanPart;
    if pieces == [] {
    } else {
      CleanPartLower(pieces[0]);
      assert LowerAll(pieces)[1..] == LowerAll(pieces[1..]);
      NamePartsLower(pieces[1..]);
    }
  }

  /** `Owner/Repo` and `owner/repo` name one repository. */
  lemma NormalizeIgnoresCase(value: string)
    ensures NormalizeRepoName(Lower(value)) == NormalizeRepoName(value)
  {
    hide Strip, SplitBy, NameParts, IsWhitespace, IsSlash;
    StripLower(value, IsWhitespace);
    StripLower(Trim(value), IsSlash);
    SplitLower(Strip(Trim(value), IsSlash));
    NamePartsLower(SplitBy(Strip(Trim(value), IsSlash), IsSlash));
  }

  datatype RepoListType = AllowlistType | DenylistType | OptOutType

  function ParseListType(value: string): Option<RepoListType> {
    var v := Lower(Trim(value));
    if v == "allowlist" then Some(AllowlistType)
    else if v == "denylist" || v == "blocklist" then Some(DenylistType)
    else if v == "opt_out" || v == "opt-out" || v == "optout" then Some(OptOutType)
    else None
  }

  datatype RepoScopeDecision = Allowed | InvalidRepo | BlockedOptOut | BlockedDenylist | BlockedAllowlist

  function DecideScope(
    repo: string, allowlist: set<string>, denylist: set<string>, optOut: set<string>): RepoScopeDecision {
    match NormalizeRepoName(repo)
    case None => InvalidRepo
    case Some(name) =>
      if name in optOut then BlockedOptOut
      else if name in denylist then BlockedDenylist
      else if allowlist != {} && name !in allowlist then BlockedAllowlist
      else Allowed
  }

  function NormalizeSet(values: set<string>): set<string> {
    set value | value in values && NormalizeRepoName(value).Some? :: NormalizeRepoName(value).value
  }

  /** Names already in the stored spelling pass through unchanged. */
  lemma NormalizeSetFixed(values: set<string>)
    requires forall value :: value in values ==> IsNormalized(value)
    ensures NormalizeSet(values) == values
  {
    forall value | value in values
      ensures value in NormalizeSet(values)
    {
      assert NormalizeRepoName(value).value == value;
    }
  }

  /** What listing `repo` under `t` adds to the set kept for `listed`. */
  function Entered(repo: string, t: RepoListType, listed: RepoListType): set<string> {
    match NormalizeRepoName(repo)
    case Some(name) => if t == listed then {name} else {}
    case None => {}
  }

  /** The names `entries` lists under `listed`, in stored spelling. */
  function ListedAs(entries: seq<(string, string)>, listed: RepoListType): set<string> {
    if entries == [] then {}
    else
      var last := entries[|entries| - 1];
      ListedAs(entries[..|entries| - 1], listed)
      + match ParseListType(last.1)
        case Some(t) => Entered(last.0, t, listed)
        case None => {}
  }

  /** What reading one more row adds; a name normalised on the way in may be normalised again. */
  lemma ListedAsNext(entries: seq<(string, string)>, i: nat, listed: RepoListType)
    requires i < |entries|
    ensures var (repo, listType) := entries[i];
      var name, t := NormalizeRepoName(repo), ParseListType(listType);
      if name.Some? && t.Some?
      then ListedAs(entries[..i + 1], listed) == ListedAs(entries[..i], listed) + Entered(name.value, t.value, listed)
      else ListedAs(entries[..i + 1], listed) == ListedAs(entries[..i], listed)
  {
    hide NormalizeRepoName;
    hide ParseListType;
    NormalizeIdempotent(entries[i].0);
    assert entries[..i + 1][..i] == entries[..i];
  }

  ghost predicate Lists(entry: (string, string), name: string, listed: RepoListType) {
    NormalizeRepoName(entry.0) == Some(name) && ParseListType(entry.1) == Some(listed)
  }

  /** A name is listed exactly when some row spells it and carries that list type. */
  lemma {:induction false} ListedAsMembers(entries: seq<(string, string)>, listed: RepoListType, name: string)
    ensures name in ListedAs(entries, listed) <==> exists i :: 0 <= i < |entries| && Lists(entries[i], name, listed)
  {
    hide NormalizeRepoName;
    hide ParseListType;
    if entries == [] {
    } else {
      var n := |entries| - 1;
      var init := entries[..n];
      ListedAsMembers(init, listed, name);
      assert forall i :: 0 <= i < n ==> entries[i] == init[i];
      assert name in ListedAs(entries, listed) <==> name in ListedAs(init, listed) || Lists(entries[n], name, listed);
    }
  }

  class RepoScopePolicy {
    var allowlist: set<string>
    var denylist: set<string>
    var optOut: set<string>

    constructor (allowlist: set<string>, denylist: set<string>, optOut: set<string>)
      ensures this.allowlist == NormalizeSet(allowlist)
      ensures this.denylist == NormalizeSet(denylist)
      ensures this.optOut == NormalizeSet(optOut)
    {
      this.allowlist := NormalizeSet(allowlist);
      this.denylist := NormalizeSet(denylist);
      this.optOut := NormalizeSet(optOut);
    }

    /** Collects one list editor's rows; rows with a bad name or list type are skipped. */
    constructor FromEntries(entries: seq<(string, string)>)
      ensures allowlist == ListedAs(entries, AllowlistType)
      ensures denylist == ListedAs(entries, DenylistType)
      ensures optOut == ListedAs(entries, OptOutType)
    {
      allowlist, denylist, optOut := {}, {}, {};
      new;
      assert entries[..0] == [] && entries[..|entries|] == entries;
      assert forall t :: ListedAs(entries[..0], t) == {};
      hide *;
      for i := 0 to |entries|
        invariant allowlist == ListedAs(entries[..i], AllowlistType)
        invariant denylist == ListedAs(entries[..i], DenylistType)
        invariant optOut == ListedAs(entries[..i], OptOutType)
      {
        var (repo, listType) := entries[i];
        var name, t := NormalizeRepoName(repo), ParseListType(listType);
        ListedAsNext(entries, i, AllowlistType);
        ListedAsNext(entries, i, DenylistType);
        ListedAsNext(entries, i, OptOutType);
        if name.Some? && t.Some? {
          Insert(name.value, t.value);
        }
      }
    }

    method Insert(repo: string, t: RepoListType)
      modifies this
      ensures allowlist == old(allowlist) + Entered(repo, t, AllowlistType)
      ensures denylist == old(denylist) + Entered(repo, t, DenylistType)
      ensures optOut == old(optOut) + Entered(repo, t, OptOutType)
    {
      hide NormalizeRepoName;
      var name := NormalizeRepoName(repo);
      if name.Some? {
        match t {
          case AllowlistType => allowlist := allowlist + {name.value};
          case DenylistType => denylist := denylist + {name.value};
          case OptOutType => optOut := optOut + {name.value};
        }
      }
    }

    function Decision(repo: string): RepoScopeDecision
      reads this
    {
      DecideScope(repo, allowlist, denylist, optOut)
    }
  }
}
