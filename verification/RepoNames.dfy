/**
  Which names the stores accept, and which lists a row lands on, in terms of the text alone
  (crates/patchhive-product-core/src/scope_policy.rs).
 */
module RepoNames {
  import opened Wrappers
  import opened Text
  import opened ScopePolicy

  /** Nothing but white space between two slashes. */
  predicate IsBlank(piece: string) { Trim(piece) == "" }

  lemma {:induction false} PartsConcat(a: seq<string>, b: seq<string>)
    ensures NameParts(a + b) == NameParts(a) + NameParts(b)
  {
    hide CleanPart;
    if a == [] {
      assert a + b == b;
    } else {
      assert (a + b)[1..] == a[1..] + b;
      PartsConcat(a[1..], b);
    }
  }

  lemma BlankPart(piece: string)
    ensures CleanPart(piece) == "" <==> IsBlank(piece)
    ensures NameParts([piece]) == if IsBlank(piece) then [] else [CleanPart(piece)]
  {
    hide Trim;
    assert [piece][1..] == [];
  }

  /** The pieces of a text with something in front of its first slash, or behind its last. */
  lemma {:induction false} SplitFront(pad: string, s: string)
    requires NoSlash(pad)
    ensures var pieces := SplitBy(s, IsSlash); SplitBy(pad + s, IsSlash) == [pad + pieces[0]] + pieces[1..]
  {
    if pad == "" {
      assert pad + s == s;
      var pieces := SplitBy(s, IsSlash);
      assert pad + pieces[0] == pieces[0];
      assert [pieces[0]] + pieces[1..] == pieces;
    } else {
      assert (pad + s)[1..] == pad[1..] + s && (pad + s)[0] == pad[0];
      SplitFront(pad[1..], s);
      var pieces := SplitBy(s, IsSlash);
      assert [pad[0]] + (pad[1..] + pieces[0]) == pad + pieces[0];
      assert ([pad[1..] + pieces[0]] + pieces[1..])[1..] == pieces[1..];
    }
  }

  /** The pieces with something behind the last one. */
  function LastPadded(pieces: seq<string>, pad: string): seq<string>
    requires pieces != []
  {
    pieces[..|pieces| - 1] + [pieces[|pieces| - 1] + pad]
  }

  lemma LastPaddedHead(head: string, c: char, rest: seq<string>, pad: string)
    requires rest != []
    ensures LastPadded([head] + rest, pad) == [head] + LastPadded(rest, pad)
    ensures LastPadded([[c] + rest[0]] + rest[1..], pad)
      == [[c] + LastPadded(rest, pad)[0]] + LastPadded(rest, pad)[1..]
  {
    assert |rest| == 1 ==> [c] + (rest[0] + pad) == [c] + rest[0] + pad;
  }

  lemma {:induction false} SplitBack(s: string, pad: string)
    requires NoSlash(pad)
    ensures SplitBy(s + pad, IsSlash) == LastPadded(SplitBy(s, IsSlash), pad)
  {
    if s == "" {
      assert s + pad == pad;
      SplitWhole(pad, IsSlash);
    } else {
      hide SplitBy, LastPadded;
      assert (s + pad)[1..] == s[1..] + pad && (s + pad)[0] == s[0];
      SplitBack(s[1..], pad);
      SplitHead(s);
      SplitHead(s + pad);
      LastPaddedHead("", s[0], SplitBy(s[1..], IsSlash), pad);
    }
  }

  lemma {:induction false} SplitTrailingSlash(s: string)
    ensures SplitBy(s + "/", IsSlash) == SplitBy(s, IsSlash) + [""]
  {
    if s == "" {
      assert s + "/" == "/";
      assert "/"[1..] == "";
    } else {
      assert (s + "/")[1..] == s[1..] + "/";
      SplitTrailingSlash(s[1..]);
    }
  }

  lemma PaddedPart(pre: string, piece: string, post: string)
    requires forall c :: c in pre ==> IsWhitespace(c)
    requires forall c :: c in post ==> IsWhitespace(c)
    ensures NameParts([pre + piece + post]) == NameParts([piece])
  {
    StripPadded(pre, piece, post, IsWhitespace);
    hide Strip, IsWhitespace;
  }

  ghost predicate AllWhite(pad: string) {
    forall c :: c in pad ==> IsWhitespace(c)
  }

  lemma WhiteHasNoSlash(pad: string)
    requires AllWhite(pad)
    ensures NoSlash(pad)
  {
    assert !IsWhitespace('/');
    hide IsWhitespace;
    assert forall i :: 0 <= i < |pad| ==> pad[i] in pad;
  }

  lemma FrontPadding(pad: string, s: string)
    requires AllWhite(pad)
    ensures NameParts(SplitBy(pad + s, IsSlash)) == NameParts(SplitBy(s, IsSlash))
  {
    hide NameParts, SplitBy, IsWhitespace, NoSlash;
    WhiteHasNoSlash(pad);
    SplitFront(pad, s);
    var pieces := SplitBy(s, IsSlash);
    PaddedPart(pad, pieces[0], "");
    assert pad + pieces[0] + "" == pad + pieces[0];
    PartsConcat([pad + pieces[0]], pieces[1..]);
    PartsConcat([pieces[0]], pieces[1..]);
    assert [pieces[0]] + pieces[1..] == pieces;
  }

  lemma BackPadding(s: string, pad: string)
    requires AllWhite(pad)
    ensures NameParts(SplitBy(s + pad, IsSlash)) == NameParts(SplitBy(s, IsSlash))
  {
    hide NameParts, SplitBy, IsWhitespace, NoSlash;
    WhiteHasNoSlash(pad);
    SplitBack(s, pad);
    var pieces := SplitBy(s, IsSlash);
    var n := |pieces| - 1;
    PaddedPart("", pieces[n], pad);
    assert "" + pieces[n] + pad == pieces[n] + pad;
    PartsConcat(pieces[..n], [pieces[n] + pad]);
    PartsConcat(pieces[..n], [pieces[n]]);
    assert pieces[..n] + [pieces[n]] == pieces;
  }

  lemma EmptyPart()
    ensures NameParts([""]) == []
  {
    BlankPart("");
    StripFixed("", IsWhitespace);
    hide Strip, NameParts, CleanPart;
  }

  lemma {:induction false} LeadingSlashes(s: string)
    ensures NameParts(SplitBy(StripStart(s, IsSlash), IsSlash)) == NameParts(SplitBy(s, IsSlash))
  {
    hide CleanPart;
    if s == "" || !IsSlash(s[0]) {
    } else {
      LeadingSlashes(s[1..]);
      PartsConcat([""], SplitBy(s[1..], IsSlash));
      EmptyPart();
    }
  }

  lemma {:induction false} TrailingSlashes(s: string)
    ensures NameParts(SplitBy(StripEnd(s, IsSlash), IsSlash)) == NameParts(SplitBy(s, IsSlash))
  {
    if s == "" || !IsSlash(s[|s| - 1]) {
    } else {
      var init := s[..|s| - 1];
      TrailingSlashes(init);
      assert StripEnd(s, IsSlash) == StripEnd(init, IsSlash);
      assert s == init + [s[|s| - 1]] == init + "/";
      hide SplitBy, NameParts, CleanPart, StripEnd, IsSlash;
      SplitTrailingSlash(init);
      PartsConcat(SplitBy(init, IsSlash), [""]);
      EmptyPart();
      assert NameParts(SplitBy(init, IsSlash)) + [] == NameParts(SplitBy(init, IsSlash));
    }
  }

  /** Trimming the whole name first, white space and then slashes, makes no difference to its parts. */
  lemma OuterTrimIsIdle(value: string)
    ensures NameParts(SplitBy(Strip(Trim(value), IsSlash), IsSlash)) == NameParts(SplitBy(value, IsSlash))
  {
    StripStartIsSuffix(value, IsWhitespace);
    StripEndIsPrefix(StripStart(value, IsWhitespace), IsWhitespace);
    var start := StripStart(value, IsWhitespace);
    var pre := value[..|value| - |start|];
    var post := start[|Trim(value)|..];
    assert value == pre + start && start == Trim(value) + post;
    assert AllWhite(pre) && AllWhite(post);
    hide NameParts, SplitBy, IsWhitespace, AllWhite, StripStart, StripEnd;
    FrontPadding(pre, start);
    BackPadding(Trim(value), post);
    LeadingSlashes(Trim(value));
    TrailingSlashes(StripStart(Trim(value), IsSlash));
  }

  /** Exactly these two pieces, in this order, hold more than white space. */
  predicate OnlyTwo(pieces: seq<string>, i: nat, j: nat) {
    && i < j < |pieces| && !IsBlank(pieces[i]) && !IsBlank(pieces[j])
    && forall k :: 0 <= k < |pieces| && k != i && k != j ==> IsBlank(pieces[k])
  }

  lemma {:induction false} AllBlank(pieces: seq<string>)
    ensures NameParts(pieces) == [] <==> forall k :: 0 <= k < |pieces| ==> IsBlank(pieces[k])
  {
    hide IsBlank, CleanPart;
    if pieces == [] {
    } else {
      BlankPart(pieces[0]);
      AllBlank(pieces[1..]);
      assert forall k :: 0 < k < |pieces| ==> pieces[k] == pieces[1..][k - 1];
    }
  }

  lemma {:induction false} OnePart(pieces: seq<string>) returns (i: nat)
    requires |NameParts(pieces)| == 1
    ensures i < |pieces| && !IsBlank(pieces[i]) && NameParts(pieces) == [CleanPart(pieces[i])]
    ensures forall k :: 0 <= k < |pieces| && k != i ==> IsBlank(pieces[k])
  {
    hide IsBlank, CleanPart;
    BlankPart(pieces[0]);
    assert forall k :: 0 < k < |pieces| ==> pieces[k] == pieces[1..][k - 1];
    if IsBlank(pieces[0]) {
      i := OnePart(pieces[1..]);
      i := i + 1;
    } else {
      i := 0;
      AllBlank(pieces[1..]);
    }
  }

  lemma {:induction false} TwoParts(pieces: seq<string>) returns (i: nat, j: nat)
    requires |NameParts(pieces)| == 2
    ensures OnlyTwo(pieces, i, j) && NameParts(pieces) == [CleanPart(pieces[i]), CleanPart(pieces[j])]
  {
    hide IsBlank, CleanPart;
    BlankPart(pieces[0]);
    assert forall k :: 0 < k < |pieces| ==> pieces[k] == pieces[1..][k - 1];
    if IsBlank(pieces[0]) {
      i, j := TwoParts(pieces[1..]);
      i, j := i + 1, j + 1;
    } else {
      i := 0;
      j := OnePart(pieces[1..]);
      j := j + 1;
    }
  }

  lemma SplitInThree(pieces: seq<string>, i: nat, j: nat)
    requires i < j < |pieces|
    ensures pieces == pieces[..i] + [pieces[i]] + pieces[i + 1..j] + [pieces[j]] + pieces[j + 1..]
  {}

  lemma OnlyTwoParts(pieces: seq<string>, i: nat, j: nat)
    requires OnlyTwo(pieces, i, j)
    ensures NameParts(pieces) == [CleanPart(pieces[i]), CleanPart(pieces[j])]
  {
    hide IsBlank, CleanPart, NameParts;
    SplitInThree(pieces, i, j);
    var a, b, c := pieces[..i], pieces[i + 1..j], pieces[j + 1..];
    AllBlank(a);
    AllBlank(b);
    AllBlank(c);
    BlankPart(pieces[i]);
    BlankPart(pieces[j]);
    PartsConcat(a, [pieces[i]]);
    PartsConcat(a + [pieces[i]], b);
    PartsConcat(a + [pieces[i]] + b, [pieces[j]]);
    PartsConcat(a + [pieces[i]] + b + [pieces[j]], c);
  }

  /**
    A name is accepted exactly when two of the pieces between its slashes, no more and no fewer, hold more than
    white space; it is stored as those two, trimmed and lower-cased, with one slash between them.
   */
  lemma AcceptedExactlyWhen(value: string, name: string)
    ensures NormalizeRepoName(value) == Some(name)
      <==> exists i: nat, j: nat ::
             && OnlyTwo(SplitBy(value, IsSlash), i, j)
             && name == Lower(Trim(SplitBy(value, IsSlash)[i])) + "/" + Lower(Trim(SplitBy(value, IsSlash)[j]))
  {
    OuterTrimIsIdle(value);
    hide Strip, SplitBy, IsBlank, Trim, Lower, NameParts;
    var pieces := SplitBy(value, IsSlash);
    if NormalizeRepoName(value) == Some(name) {
      var i, j := TwoParts(pieces);
    }
    forall i: nat, j: nat | OnlyTwo(pieces, i, j)
      ensures NormalizeRepoName(value) == Some(Lower(Trim(pieces[i])) + "/" + Lower(Trim(pieces[j])))
    {
      OnlyTwoParts(pieces, i, j);
    }
  }

  /** The set a policy is given is read name by name; what is no name is dropped. */
  lemma NormalizeSetMembers(values: set<string>, name: string)
    ensures name in NormalizeSet(values) <==> exists value :: value in values && NormalizeRepoName(value) == Some(name)
  {
    hide NormalizeRepoName;
  }

  predicate Says(entry: (string, string), name: string, words: set<string>) {
    NormalizeRepoName(entry.0) == Some(name) && Lower(Trim(entry.1)) in words
  }

  lemma SaysExactly(entries: seq<(string, string)>, listed: RepoListType, words: set<string>, name: string)
    requires words == match listed
      case AllowlistType => {"allowlist"}
      case DenylistType => {"denylist", "blocklist"}
      case OptOutType => {"opt_out", "opt-out", "optout"}
    ensures name in ListedAs(entries, listed) <==> exists i :: 0 <= i < |entries| && Says(entries[i], name, words)
  {
    hide NormalizeRepoName, Lower, Trim, ListedAs;
    ListedAsMembers(entries, listed, name);
    assert forall i :: 0 <= i < |entries| ==> (Lists(entries[i], name, listed) <==> Says(entries[i], name, words));
    hide Lists, Says;
  }

  /** A list editor's row counts under the words for its list and no others; an opt-out outranks a denial. */
  lemma RowsDecide(entries: seq<(string, string)>, repo: string, name: string)
    requires NormalizeRepoName(repo) == Some(name)
    ensures var decision :=
        DecideScope(repo, ListedAs(entries, AllowlistType), ListedAs(entries, DenylistType),
          ListedAs(entries, OptOutType));
      var opted := exists i :: 0 <= i < |entries| && Says(entries[i], name, {"opt_out", "opt-out", "optout"});
      var denied := exists i :: 0 <= i < |entries| && Says(entries[i], name, {"denylist", "blocklist"});
      && (decision == BlockedOptOut <==> opted)
      && (decision == BlockedDenylist <==> denied && !opted)
      && (decision == Allowed || decision == BlockedAllowlist <==> !denied && !opted)
      && (decision == Allowed ==>
            ListedAs(entries, AllowlistType) == {}
            || exists i :: 0 <= i < |entries| && Says(entries[i], name, {"allowlist"}))
  {
    hide NormalizeRepoName, ListedAs;
    SaysExactly(entries, AllowlistType, {"allowlist"}, name);
    SaysExactly(entries, DenylistType, {"denylist", "blocklist"}, name);
    SaysExactly(entries, OptOutType, {"opt_out", "opt-out", "optout"}, name);
    hide Says;
  }
}
