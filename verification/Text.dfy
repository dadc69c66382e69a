/**
  The string operations the stores and the `.env` editor are written with: trimming,
  splitting, joining and the line splitting of Rust's standard library.
 */
module Text {

  /** Unicode `White_Space`, the class `str::trim` removes. */
  predicate IsWhitespace(c: char) {
    || '\t' <= c <= '\r'
    || c == ' ' || c == '\U{85}' || c == '\U{A0}' || c == '\U{1680}'
    || '\U{2000}' <= c <= '\U{200A}'
    || c == '\U{2028}' || c == '\U{2029}' || c == '\U{202F}' || c == '\U{205F}' || c == '\U{3000}'
  }

  predicate IsSlash(c: char) { c == '/' }

  predicate IsDoubleQuote(c: char) { c == '"' }

  predicate IsSingleQuote(c: char) { c == '\'' }

  /** The separators of HiveCore's free-text repository lists. */
  predicate IsListSeparator(c: char) { c == ',' || c == ';' || c == '\n' || c == '\r' }

  function StripStart(s: string, p: char -> bool): (r: string)
    ensures |r| <= |s|
    ensures r == "" || !p(r[0])
    ensures forall i :: 0 <= i < |s| - |r| ==> p(s[i])
  {
    if s != "" && p(s[0]) then
      var r := StripStart(s[1..], p);
      assert forall i :: 0 <= i < |s| - |r| ==> i == 0 || s[i] == s[1..][i - 1];
      r
    else s
  }

  function StripEnd(s: string, p: char -> bool): (r: string)
    ensures |r| <= |s|
    ensures r == "" || !p(r[|r| - 1])
    ensures forall i :: |r| <= i < |s| ==> p(s[i])
  {
    if s != "" && p(s[|s| - 1]) then StripEnd(s[..|s| - 1], p) else s
  }

  lemma {:induction false} StripStartIsSuffix(s: string, p: char -> bool)
    ensures StripStart(s, p) == s[|s| - |StripStart(s, p)|..]
  {
    if s == "" || !p(s[0]) {
    } else {
      StripStartIsSuffix(s[1..], p);
    }
  }

  lemma {:induction false} StripEndIsPrefix(s: string, p: char -> bool)
    ensures StripEnd(s, p) == s[..|StripEnd(s, p)|]
  {
    if s == "" || !p(s[|s| - 1]) {
    } else {
      StripEndIsPrefix(s[..|s| - 1], p);
    }
  }

  /** `str::trim_matches`: drops leading and trailing characters of the class. */
  function Strip(s: string, p: char -> bool): (r: string)
    ensures r == "" || (!p(r[0]) && !p(r[|r| - 1]))
    ensures |r| <= |s|
  {
    StripEndIsPrefix(StripStart(s, p), p);
    StripEnd(StripStart(s, p), p)
  }

  function Trim(s: string): string { Strip(s, IsWhitespace) }

  /** A string that neither starts nor ends with the class is left alone. */
  lemma StripFixed(s: string, p: char -> bool)
    requires s == "" || (!p(s[0]) && !p(s[|s| - 1]))
    ensures Strip(s, p) == s
  {}

  /** Stripping that takes no character away changes nothing. */
  lemma StripWhole(s: string, p: char -> bool)
    ensures |Strip(s, p)| == |s| ==> Strip(s, p) == s
  {}

  /** Only leading and trailing characters of the class disappear, so everything else survives. */
  lemma StripKeeps(s: string, p: char -> bool, c: char)
    requires c !in s
    ensures c !in Strip(s, p)
  {
    StripStartIsSuffix(s, p);
    StripEndIsPrefix(StripStart(s, p), p);
  }

  lemma {:induction false} StripStartAll(s: string, p: char -> bool)
    requires forall c :: c in s ==> p(c)
    ensures StripStart(s, p) == ""
  {
    if s == "" {
    } else {
      assert s[0] in s;
      StripStartAll(s[1..], p);
    }
  }

  lemma {:induction false} StripStartPrefix(m: string, post: string, p: char -> bool)
    requires StripStart(m, p) != ""
    ensures StripStart(m + post, p) == StripStart(m, p) + post
  {
    assert m != "";
    if !p(m[0]) {
    } else {
      assert (m + post)[1..] == m[1..] + post;
      StripStartPrefix(m[1..], post, p);
    }
  }

  lemma {:induction false} StripEndPadded(m: string, post: string, p: char -> bool)
    requires forall c :: c in post ==> p(c)
    ensures StripEnd(m + post, p) == StripEnd(m, p)
  {
    if post == "" {
      assert m + post == m;
    } else {
      var init := post[..|post| - 1];
      assert (m + post)[..|m + post| - 1] == m + init;
      assert post[|post| - 1] in post;
      StripEndPadded(m, init, p);
    }
  }

  lemma StripPaddedEnd(m: string, post: string, p: char -> bool)
    requires forall c :: c in post ==> p(c)
    ensures Strip(m + post, p) == Strip(m, p)
  {
    var t := StripStart(m, p);
    if t == "" {
      assert forall c :: c in m ==> p(c);
      StripStartAll(m + post, p);
    } else {
      hide StripStart, StripEnd;
      StripStartPrefix(m, post, p);
      StripEndPadded(t, post, p);
    }
  }

  lemma {:induction false} StripStartPadded(pre: string, rest: string, p: char -> bool)
    requires forall c :: c in pre ==> p(c)
    ensures StripStart(pre + rest, p) == StripStart(rest, p)
  {
    if pre == "" {
      assert pre + rest == rest;
    } else {
      assert pre[0] in pre;
      assert (pre + rest)[1..] == pre[1..] + rest;
      StripStartPadded(pre[1..], rest, p);
    }
  }

  /** Surrounding padding does not change what stripping leaves. */
  lemma StripPadded(pre: string, m: string, post: string, p: char -> bool)
    requires forall c :: c in pre ==> p(c)
    requires forall c :: c in post ==> p(c)
    ensures Strip(pre + m + post, p) == Strip(m, p)
  {
    hide StripStart, StripEnd;
    StripStartPadded(pre, m + post, p);
    assert pre + m + post == pre + (m + post);
    StripPaddedEnd(m, post, p);
  }

  function LowerChar(c: char): (r: char)
    ensures IsWhitespace(r) == IsWhitespace(c)
    ensures IsSlash(r) == IsSlash(c)
  {
    if 'A' <= c <= 'Z' then (c as int + 32) as char else c
  }

  /** `str::to_ascii_lowercase`. */
  function Lower(s: string): (r: string)
    ensures |r| == |s|
    ensures forall i :: 0 <= i < |s| ==> r[i] == LowerChar(s[i])
  {
    seq(|s|, i requires 0 <= i < |s| => LowerChar(s[i]))
  }

  lemma LowerIdempotent(s: string)
    ensures Lower(Lower(s)) == Lower(s)
  {}

  lemma LowerSlices(s: string, k: nat)
    requires k <= |s|
    ensures Lower(s)[..k] == Lower(s[..k]) && Lower(s)[k..] == Lower(s[k..])
  {}

  lemma {:induction false} StripStartLower(s: string, p: char -> bool)
    requires forall c :: p(LowerChar(c)) == p(c)
    ensures StripStart(Lower(s), p) == Lower(StripStart(s, p))
  {
    hide LowerChar;
    if s == "" {
    } else {
      LowerSlices(s, 1);
      StripStartLower(s[1..], p);
    }
  }

  lemma {:induction false} StripEndLower(s: string, p: char -> bool)
    requires forall c :: p(LowerChar(c)) == p(c)
    ensures StripEnd(Lower(s), p) == Lower(StripEnd(s, p))
  {
    hide LowerChar;
    if s == "" {
    } else {
      LowerSlices(s, |s| - 1);
      StripEndLower(s[..|s| - 1], p);
    }
  }

  /** Stripping a class that does not tell cases apart commutes with lower-casing. */
  lemma StripLower(s: string, p: char -> bool)
    requires forall c :: p(LowerChar(c)) == p(c)
    ensures Strip(Lower(s), p) == Lower(Strip(s, p))
  {
    StripStartLower(s, p);
    StripEndLower(StripStart(s, p), p);
  }

  /** `str::split` on a character class: always at least one piece, none holding a separator. */
  function SplitBy(s: string, p: char -> bool): (r: seq<string>)
    ensures |r| > 0
    ensures forall i, j :: 0 <= i < |r| && 0 <= j < |r[i]| ==> !p(r[i][j])
  {
    if s == "" then [""]
    else if p(s[0]) then [""] + SplitBy(s[1..], p)
    else
      var rest := SplitBy(s[1..], p);
      [[s[0]] + rest[0]] + rest[1..]
  }

  lemma {:induction false} SplitWhole(s: string, p: char -> bool)
    requires forall i :: 0 <= i < |s| ==> !p(s[i])
    ensures SplitBy(s, p) == [s]
  {
    if s == "" {
    } else {
      SplitWhole(s[1..], p);
      assert [s[0]] + s[1..] == s;
    }
  }

  lemma {:induction false} SplitAtSeparator(a: string, c: char, b: string, p: char -> bool)
    requires forall i :: 0 <= i < |a| ==> !p(a[i])
    requires p(c)
    ensures SplitBy(a + [c] + b, p) == [a] + SplitBy(b, p)
  {
    var s := a + [c] + b;
    if a == "" {
      assert s[1..] == b;
    } else {
      assert s[1..] == a[1..] + [c] + b;
      SplitAtSeparator(a[1..], c, b, p);
      assert [a[0]] + a[1..] == a;
    }
  }

  /** The first position of `c`, or the length. */
  function Find(s: string, c: char): (k: nat)
    ensures k <= |s|
    ensures c !in s[..k]
    ensures k < |s| ==> s[k] == c
  {
    if s == "" || s[0] == c then 0
    else
      var k := 1 + Find(s[1..], c);
      assert s[..k] == [s[0]] + s[1..][..k - 1];
      k
  }

  lemma FindAfter(a: string, c: char, b: string)
    requires c !in a
    ensures Find(a + [c] + b, c) == |a|
  {
    var s := a + [c] + b;
    assert s[|a|] == c;
    assert forall i :: 0 <= i < |a| ==> s[i] == a[i] && a[i] in a;
    var k := Find(s, c);
  }

  lemma FindNone(s: string, c: char)
    requires c !in s
    ensures Find(s, c) == |s|
  {}

  predicate StartsWith(s: string, prefix: string) {
    prefix <= s
  }

  /** The one carriage return that `str::lines` removes before a line feed. */
  function StripCarriageReturn(s: string): string {
    if s != "" && s[|s| - 1] == '\r' then s[..|s| - 1] else s
  }

  /** `str::lines`. */
  function Lines(s: string): (r: seq<string>)
    decreases |s|
    ensures forall i :: 0 <= i < |r| ==> '\n' !in r[i]
  {
    if s == "" then []
    else
      var k := Find(s, '\n');
      if k == |s| then
        assert s[..k] == s;
        [s]
      else
        [StripCarriageReturn(s[..k])] + Lines(s[k + 1..])
  }

  /** `[&str]::join("\n")`. */
  function JoinLines(ls: seq<string>): string {
    if |ls| == 0 then ""
    else if |ls| == 1 then ls[0]
    else ls[0] + "\n" + JoinLines(ls[1..])
  }

  function StripCarriageReturns(ls: seq<string>): (r: seq<string>)
    ensures |r| == |ls|
    ensures forall i :: 0 <= i < |ls| ==> r[i] == StripCarriageReturn(ls[i])
  {
    seq(|ls|, i requires 0 <= i < |ls| => StripCarriageReturn(ls[i]))
  }

  lemma LinesOfLine(t: string, rest: string)
    requires '\n' !in t
    ensures Lines(t + "\n" + rest) == [StripCarriageReturn(t)] + Lines(rest)
  {
    var s := t + "\n" + rest;
    assert s == t + ['\n'] + rest;
    FindAfter(t, '\n', rest);
    assert s[..|t|] == t;
    assert s[|t| + 1..] == rest;
  }

  lemma JoinedParts(ls: seq<string>, rest: string)
    requires |ls| > 0
    ensures |ls| == 1 ==> JoinLines(ls) + "\n" + rest == ls[0] + "\n" + rest
    ensures |ls| > 1 ==> JoinLines(ls) + "\n" + rest == ls[0] + "\n" + (JoinLines(ls[1..]) + "\n" + rest)
  {
    if |ls| > 1 {
      var tail := JoinLines(ls[1..]);
      hide JoinLines;
      assert ls[0] + "\n" + tail + "\n" + rest == ls[0] + "\n" + (tail + "\n" + rest);
    }
  }

  lemma StrippedParts(ls: seq<string>)
    requires |ls| > 0
    ensures StripCarriageReturns(ls) == [StripCarriageReturn(ls[0])] + StripCarriageReturns(ls[1..])
  {
    hide StripCarriageReturn;
  }

  lemma NothingStripped()
    ensures StripCarriageReturns([]) == []
  {}

  /** Lines written out and read again come back, each less one trailing carriage return. */
  lemma {:induction false} LinesOfJoin(ls: seq<string>, rest: string)
    requires |ls| > 0
    requires forall i :: 0 <= i < |ls| ==> '\n' !in ls[i]
    ensures Lines(JoinLines(ls) + "\n" + rest) == StripCarriageReturns(ls) + Lines(rest)
  {
    hide Lines, JoinLines, StripCarriageReturn, StripCarriageReturns;
    JoinedParts(ls, rest);
    StrippedParts(ls);
    NothingStripped();
    if |ls| == 1 {
      LinesOfLine(ls[0], rest);
      assert ls[1..] == [];
    } else {
      LinesOfLine(ls[0], JoinLines(ls[1..]) + "\n" + rest);
      LinesOfJoin(ls[1..], rest);
    }
  }

  /** A dropped carriage return is white space, so a trimmed line does not notice it. */
  lemma TrimIgnoresCarriageReturn(s: string)
    ensures Trim(StripCarriageReturn(s)) == Trim(s)
  {
    if s != "" && s[|s| - 1] == '\r' {
      var m := s[..|s| - 1];
      assert "" + m + "\r" == s;
      StripPadded("", m, "\r", IsWhitespace);
    }
  }

  /** Lines end with a line feed, with or without one carriage return before it. */
  lemma LinesOfText(t: string, rest: string)
    requires '\n' !in t
    ensures Lines(t + "\r\n" + rest) == [t] + Lines(rest)
    ensures t == "" || t[|t| - 1] != '\r' ==> Lines(t + "\n" + rest) == [t] + Lines(rest)
  {
    hide Lines;
    LinesOfLine(t, rest);
    LinesOfLine(t + "\r", rest);
    assert t + "\r" + "\n" + rest == t + "\r\n" + rest by {
      assert "\r" + "\n" == "\r\n";
    }
    assert (t + "\r")[..|t|] == t;
  }

  /** Only the capitals of the alphabet change, each to the small letter in its place. */
  lemma LowerExactly(c: char)
    ensures if 'A' <= c <= 'Z' then LowerChar(c) as int - 'a' as int == c as int - 'A' as int else LowerChar(c) == c
    ensures Lower("AZ") == "az"
  {}

  /** The characters Unicode calls white space, by code point. */
  lemma WhitespaceExactly(c: char)
    ensures IsWhitespace(c) <==> c as int in {
      9, 10, 11, 12, 13, 0x20, 0x85, 0xA0, 0x1680,
      0x2000, 0x2001, 0x2002, 0x2003, 0x2004, 0x2005, 0x2006, 0x2007, 0x2008, 0x2009, 0x200A,
      0x2028, 0x2029, 0x202F, 0x205F, 0x3000}
  {}
}
