/**
  The line-based `.env` editor and reader: `upsert_env_value` and `env_value` of
  services/patchhive-launcher/src/main.rs, and `persist_env_value` with `format_env_value` of
  crates/patchhive-product-core/src/auth.rs, which edits the same way.
 */
module EnvFile {
  import opened Wrappers
  import opened Text

  /** A line the editor takes for an assignment to `key`. */
  predicate Drops(line: string, key: string) {
    StartsWith(StripStart(line, IsWhitespace), key + "=")
  }

  function Kept(lines: seq<string>, key: string): (r: seq<string>)
    ensures (forall i :: 0 <= i < |lines| ==> '\n' !in lines[i]) ==> forall i :: 0 <= i < |r| ==> '\n' !in r[i]
  {
    if lines == [] then []
    else if Drops(lines[0], key) then Kept(lines[1..], key)
    else [lines[0]] + Kept(lines[1..], key)
  }

  /** The text `upsert_env_value` writes. */
  function Upserted(content: string, key: string, value: string): string {
    var filtered := JoinLines(Kept(Lines(content), key));
    if Trim(filtered) == "" then key + "=" + value + "\n"
    else filtered + "\n" + (key + "=" + value + "\n")
  }

  /** The reader's clean-up of a value: white space, then double quotes, then single quotes. */
  function Cleaned(value: string): string {
    Strip(Strip(Trim(value), IsDoubleQuote), IsSingleQuote)
  }

  /** What a trimmed line says about `key`: blank lines, comments and lines without `=` say nothing. */
  function TrimmedValue(trimmed: string, key: string): Option<string> {
    if trimmed == "" || trimmed[0] == '#' then None
    else
      var k := Find(trimmed, '=');
      if k < |trimmed| && Trim(trimmed[..k]) == key then Some(Cleaned(trimmed[k + 1..])) else None
  }

  function LineValue(line: string, key: string): Option<string> {
    TrimmedValue(Trim(line), key)
  }

  function FirstValue(lines: seq<string>, key: string): Option<string> {
    if lines == [] then None
    else if LineValue(lines[0], key).Some? then LineValue(lines[0], key)
    else FirstValue(lines[1..], key)
  }

  /** `env_value`. */
  function EnvValue(content: string, key: string): Option<string> {
    FirstValue(Lines(content), key)
  }

  /** The names the two callers use are like this: no padding, no `=`, no line break, no comment mark. */
  predicate ValidKey(key: string) {
    && '=' !in key && '\n' !in key
    && (key != "" ==> key[0] != '#' && !IsWhitespace(key[0]) && !IsWhitespace(key[|key| - 1]))
  }

  predicate OneLine(value: string) {
    '\n' !in value
  }

  /**
    The value of an assignment to `key` that the editor does not recognise, such as `KEY = value`, and so
    leaves in front.
   */
  function Shadow(content: string, key: string): Option<string> {
    FirstValue(Kept(Lines(content), key), key)
  }

  function OrElse(a: Option<string>, b: Option<string>): Option<string> {
    if a.Some? then a else b
  }

  // ---------------------------------------------------------------------------------------
  // One line.

  lemma {:induction false} StripEndKeepsFront(front: string, rest: string)
    requires front != "" && !IsWhitespace(front[|front| - 1])
    ensures StripEnd(front + rest, IsWhitespace) == front + StripEnd(rest, IsWhitespace)
  {
    hide IsWhitespace;
    if rest == "" {
      assert front + rest == front;
    } else {
      assert (front + rest)[..|front + rest| - 1] == front + rest[..|rest| - 1];
      StripEndKeepsFront(front, rest[..|rest| - 1]);
    }
  }

  lemma TrimAssignment(key: string, rest: string)
    requires ValidKey(key)
    ensures StripEnd(key + "=" + rest, IsWhitespace) == key + "=" + StripEnd(rest, IsWhitespace)
  {
    StripEndKeepsFront(key + "=", rest);
  }

  lemma CleanedIgnoresEnd(rest: string)
    ensures Cleaned(StripEnd(rest, IsWhitespace)) == Cleaned(rest)
  {
    hide Strip, StripStart, StripEnd, IsWhitespace;
    var r := StripEnd(rest, IsWhitespace);
    StripEndIsPrefix(rest, IsWhitespace);
    assert rest == "" + r + rest[|r|..];
    assert forall c :: c in rest[|r|..] ==> IsWhitespace(c);
    StripPadded("", r, rest[|r|..], IsWhitespace);
    assert "" + r == r;
  }

  lemma ValueAt(trimmed: string, key: string, end: string, asked: string)
    requires |key| < |trimmed| && trimmed[0] != '#' && Find(trimmed, '=') == |key|
    requires trimmed[..|key|] == key && trimmed[|key| + 1..] == end && Trim(key) == key
    ensures TrimmedValue(trimmed, asked) == if asked == key then Some(Cleaned(end)) else None
  {
    hide Find, Trim, Cleaned;
  }

  lemma FoundAssignment(key: string, end: string)
    requires ValidKey(key)
    ensures (key + "=" + end)[0] != '#'
    ensures Find(key + "=" + end, '=') == |key|
  {
    var trimmed := key + "=" + end;
    assert trimmed[0] == if key == "" then '=' else key[0];
    assert trimmed == key + ['='] + end;
    FindAfter(key, '=', end);
  }

  lemma TrimmedAssignment(key: string, end: string, asked: string)
    requires ValidKey(key)
    ensures TrimmedValue(key + "=" + end, asked) == if asked == key then Some(Cleaned(end)) else None
  {
    assert Trim(key) == key by { StripFixed(key, IsWhitespace); }
    hide Trim, Find, Cleaned, TrimmedValue, IsWhitespace;
    FoundAssignment(key, end);
    assert (key + "=" + end)[..|key|] == key && (key + "=" + end)[|key| + 1..] == end;
    ValueAt(key + "=" + end, key, end, asked);
  }

  /** A line that assigns to `key` speaks about that key and no other. */
  lemma AssignmentLine(line: string, key: string, rest: string, asked: string)
    requires ValidKey(key)
    requires StripStart(line, IsWhitespace) == key + "=" + rest
    ensures LineValue(line, asked) == if asked == key then Some(Cleaned(rest)) else None
  {
    var end := StripEnd(rest, IsWhitespace);
    assert Trim(line) == key + "=" + end by { TrimAssignment(key, rest); }
    CleanedIgnoresEnd(rest);
    hide IsWhitespace, StripEnd, Trim, Cleaned, TrimmedValue;
    TrimmedAssignment(key, end, asked);
  }

  lemma WrittenLine(key: string, value: string, asked: string)
    requires ValidKey(key)
    ensures LineValue(key + "=" + value, asked) == if asked == key then Some(Cleaned(value)) else None
    ensures Drops(key + "=" + value, key)
  {
    var line := key + "=" + value;
    assert !IsWhitespace(line[0]);
    AssignmentLine(line, key, value, asked);
    assert (key + "=") + value == line;
  }

  lemma DroppedLine(line: string, key: string, asked: string)
    requires ValidKey(key) && Drops(line, key) && asked != key
    ensures LineValue(line, asked) == None
  {
    var start := StripStart(line, IsWhitespace);
    var rest := start[|key + "="|..];
    assert start == key + "=" + rest;
    AssignmentLine(line, key, rest, asked);
  }

  lemma LineValueIgnoresCarriageReturn(line: string, key: string)
    ensures LineValue(StripCarriageReturn(line), key) == LineValue(line, key)
  {
    hide Trim, TrimmedValue, StripCarriageReturn;
    TrimIgnoresCarriageReturn(line);
  }

  lemma PrefixIgnoresCarriageReturn(s: string, prefix: string)
    requires prefix != "" && prefix[|prefix| - 1] != '\r'
    ensures StartsWith(s + "\r", prefix) == StartsWith(s, prefix)
  {
    if StartsWith(s + "\r", prefix) {
      assert (s + "\r")[|prefix| - 1] == prefix[|prefix| - 1];
      assert s[..|prefix|] == (s + "\r")[..|prefix|];
    }
  }

  lemma StripStartNothing(s: string, p: char -> bool)
    requires StripStart(s, p) == ""
    ensures forall c :: c in s ==> p(c)
  {}

  lemma StartIgnoresCarriageReturn(m: string)
    ensures StripStart(m + "\r", IsWhitespace)
      == if StripStart(m, IsWhitespace) == "" then "" else StripStart(m, IsWhitespace) + "\r"
  {
    assert IsWhitespace('\r');
    hide IsWhitespace;
    if StripStart(m, IsWhitespace) == "" {
      StripStartNothing(m, IsWhitespace);
      StripStartAll(m + "\r", IsWhitespace);
    } else {
      hide StripStart;
      StripStartPrefix(m, "\r", IsWhitespace);
    }
  }

  lemma DropsIgnoresCarriageReturn(line: string, key: string)
    ensures Drops(StripCarriageReturn(line), key) == Drops(line, key)
  {
    hide StripStart, IsWhitespace;
    if line != "" && line[|line| - 1] == '\r' {
      var m := line[..|line| - 1];
      assert line == m + "\r";
      StartIgnoresCarriageReturn(m);
      PrefixIgnoresCarriageReturn(StripStart(m, IsWhitespace), key + "=");
    }
  }

  // ---------------------------------------------------------------------------------------
  // Many lines.

  lemma {:induction false} FirstValueConcat(a: seq<string>, b: seq<string>, key: string)
    ensures FirstValue(a + b, key) == OrElse(FirstValue(a, key), FirstValue(b, key))
  {
    hide LineValue;
    if a == [] {
      assert a + b == b;
    } else {
      assert (a + b)[1..] == a[1..] + b;
      FirstValueConcat(a[1..], b, key);
    }
  }

  lemma {:induction false} FirstValueIgnoresCarriageReturns(lines: seq<string>, key: string)
    ensures FirstValue(StripCarriageReturns(lines), key) == FirstValue(lines, key)
  {
    hide LineValue, StripCarriageReturn;
    if lines == [] {
    } else {
      LineValueIgnoresCarriageReturn(lines[0], key);
      assert StripCarriageReturns(lines)[1..] == StripCarriageReturns(lines[1..]);
      FirstValueIgnoresCarriageReturns(lines[1..], key);
    }
  }

  lemma {:induction false} KeptConcat(a: seq<string>, b: seq<string>, key: string)
    ensures Kept(a + b, key) == Kept(a, key) + Kept(b, key)
  {
    hide Drops;
    if a == [] {
      assert a + b == b;
    } else {
      assert (a + b)[1..] == a[1..] + b;
      KeptConcat(a[1..], b, key);
    }
  }

  lemma {:induction false} KeptIgnoresCarriageReturns(lines: seq<string>, key: string)
    ensures Kept(StripCarriageReturns(lines), key) == StripCarriageReturns(Kept(lines, key))
  {
    hide Drops, StripCarriageReturn;
    if lines == [] {
    } else {
      var tail := lines[1..];
      DropsIgnoresCarriageReturn(lines[0], key);
      assert StripCarriageReturns(lines)[1..] == StripCarriageReturns(tail);
      KeptIgnoresCarriageReturns(tail, key);
      assert StripCarriageReturns([lines[0]] + Kept(tail, key))
        == [StripCarriageReturn(lines[0])] + StripCarriageReturns(Kept(tail, key));
    }
  }

  /** The lines an edit removes say nothing about other keys. */
  lemma {:induction false} KeptSaysTheSame(lines: seq<string>, key: string, asked: string)
    requires ValidKey(key) && asked != key
    ensures FirstValue(Kept(lines, key), asked) == FirstValue(lines, asked)
  {
    hide LineValue, Drops;
    if lines == [] {
    } else {
      KeptSaysTheSame(lines[1..], key, asked);
      if Drops(lines[0], key) {
        DroppedLine(lines[0], key, asked);
      } else {
        assert Kept(lines, key)[1..] == Kept(lines[1..], key);
      }
    }
  }

  /** Editing one key first does not change what shadows another, and editing twice is editing once. */
  lemma {:induction false} KeptTwice(lines: seq<string>, key: string, asked: string)
    requires ValidKey(key)
    ensures FirstValue(Kept(Kept(lines, key), asked), asked) == FirstValue(Kept(lines, asked), asked)
  {
    hide LineValue, Drops;
    if lines == [] {
    } else {
      var tail := lines[1..];
      KeptTwice(tail, key, asked);
      assert ([lines[0]] + Kept(tail, key))[1..] == Kept(tail, key);
      assert ([lines[0]] + Kept(tail, asked))[1..] == Kept(tail, asked);
      assert ([lines[0]] + Kept(Kept(tail, key), asked))[1..] == Kept(Kept(tail, key), asked);
      if Drops(lines[0], key) && asked != key {
        DroppedLine(lines[0], key, asked);
      }
    }
  }

  lemma NothingLeft(s: string)
    requires Trim(s) == ""
    ensures StripStart(s, IsWhitespace) == ""
  {
    hide IsWhitespace;
  }

  lemma AllWhitespace(s: string)
    ensures Trim(s) == "" <==> forall i :: 0 <= i < |s| ==> IsWhitespace(s[i])
  {
    hide IsWhitespace;
    if forall i :: 0 <= i < |s| ==> IsWhitespace(s[i]) {
      assert forall c :: c in s ==> IsWhitespace(c);
      StripStartAll(s, IsWhitespace);
    }
    if Trim(s) == "" {
      NothingLeft(s);
    }
  }

  lemma {:induction false} BlankJoin(lines: seq<string>, key: string)
    requires Trim(JoinLines(lines)) == ""
    ensures FirstValue(lines, key) == None
  {
    if lines == [] {
    } else {
      var all := JoinLines(lines);
      AllWhitespace(all);
      assert forall i :: 0 <= i < |lines[0]| ==> lines[0][i] == all[i];
      AllWhitespace(lines[0]);
      if |lines| > 1 {
        var tail := JoinLines(lines[1..]);
        assert all[|lines[0]| + 1..] == tail;
        AllWhitespace(tail);
        BlankJoin(lines[1..], key);
      }
    }
  }

  // ---------------------------------------------------------------------------------------
  // One edit.

  function NewLine(key: string, value: string): string {
    StripCarriageReturn(key + "=" + value)
  }

  lemma NewLineValue(key: string, value: string, asked: string)
    requires ValidKey(key)
    ensures LineValue(NewLine(key, value), asked) == if asked == key then Some(Cleaned(value)) else None
    ensures Drops(NewLine(key, value), key)
  {
    hide LineValue, Drops, StripCarriageReturn;
    var line := key + "=" + value;
    WrittenLine(key, value, asked);
    LineValueIgnoresCarriageReturn(line, asked);
    DropsIgnoresCarriageReturn(line, key);
  }

  lemma LastLine(line: string)
    requires '\n' !in line
    ensures Lines(line + "\n") == [StripCarriageReturn(line)]
  {
    LinesOfLine(line, "");
    assert line + "\n" + "" == line + "\n";
    assert Lines("") == [];
  }

  lemma NothingJoined()
    ensures Trim(JoinLines([])) == ""
  {}

  /** The edited file is the kept lines followed by the new one. */
  lemma UpsertedLines(content: string, key: string, value: string)
    requires ValidKey(key) && OneLine(value)
    ensures var kept := Kept(Lines(content), key);
      Lines(Upserted(content, key, value))
        == (if Trim(JoinLines(kept)) == "" then [] else StripCarriageReturns(kept)) + [NewLine(key, value)]
  {
    var kept, line := Kept(Lines(content), key), key + "=" + value;
    assert '\n' !in line;
    hide Trim, JoinLines, Kept, ValidKey;
    hide Lines;
    assert Lines(line + "\n") == [NewLine(key, value)] by { LastLine(line); }
    if Trim(JoinLines(kept)) != "" {
      assert kept != [] by { NothingJoined(); }
      LinesOfJoin(kept, line + "\n");
    }
  }

  lemma OneLineFile(last: seq<string>, asked: string)
    requires |last| == 1
    ensures FirstValue(last, asked) == LineValue(last[0], asked)
    ensures FirstValue(Kept(last, asked), asked) == if Drops(last[0], asked) then None else LineValue(last[0], asked)
  {
    hide LineValue, Drops;
    assert last[1..] == [] && [last[0]] + [] == last;
  }

  lemma EditedParts(kept: seq<string>, last: seq<string>, asked: string)
    requires FirstValue(Kept(last, asked), asked) == None
    ensures FirstValue(StripCarriageReturns(kept) + last, asked)
      == OrElse(FirstValue(kept, asked), FirstValue(last, asked))
    ensures FirstValue(Kept(StripCarriageReturns(kept) + last, asked), asked) == FirstValue(Kept(kept, asked), asked)
  {
    hide StripCarriageReturns, FirstValue, Kept;
    var cleaned := StripCarriageReturns(kept);
    FirstValueConcat(cleaned, last, asked);
    FirstValueIgnoresCarriageReturns(kept, asked);
    KeptConcat(cleaned, last, asked);
    KeptIgnoresCarriageReturns(kept, asked);
    FirstValueConcat(Kept(cleaned, asked), Kept(last, asked), asked);
    FirstValueIgnoresCarriageReturns(Kept(kept, asked), asked);
  }

  lemma {:induction false} BlankKept(lines: seq<string>, key: string)
    requires FirstValue(lines, key) == None
    ensures FirstValue(Kept(lines, key), key) == None
  {
    hide LineValue, Drops;
    if lines == [] {
    } else {
      BlankKept(lines[1..], key);
      assert ([lines[0]] + Kept(lines[1..], key))[1..] == Kept(lines[1..], key);
    }
  }

  /** What the edited file says about any key, and what would still shadow it. */
  lemma EditedLines(content: string, key: string, value: string, asked: string)
    requires ValidKey(key) && OneLine(value)
    ensures FirstValue(Lines(Upserted(content, key, value)), asked)
      == OrElse(FirstValue(Kept(Lines(content), key), asked), if asked == key then Some(Cleaned(value)) else None)
    ensures FirstValue(Kept(Lines(Upserted(content, key, value)), asked), asked)
      == FirstValue(Kept(Kept(Lines(content), key), asked), asked)
  {
    hide Lines, Kept, FirstValue, LineValue, Drops, Upserted, NewLine, JoinLines, Trim, Cleaned, ValidKey, OneLine;
    var kept, last := Kept(Lines(content), key), [NewLine(key, value)];
    UpsertedLines(content, key, value);
    NewLineValue(key, value, asked);
    OneLineFile(last, asked);
    if Trim(JoinLines(kept)) == "" {
      BlankJoin(kept, asked);
      BlankKept(kept, asked);
      assert [] + last == last;
    } else {
      EditedParts(kept, last, asked);
    }
  }

  /**
    After an edit every other key reads as before, and the edited key reads as the cleaned value
    unless an assignment the editor did not recognise still stands in front of it.
   */
  lemma EditReadsBack(content: string, key: string, value: string, asked: string)
    requires ValidKey(key) && OneLine(value)
    ensures EnvValue(Upserted(content, key, value), asked) ==
      if asked == key then OrElse(Shadow(content, key), Some(Cleaned(value))) else EnvValue(content, asked)
  {
    hide Lines, Kept, FirstValue, Upserted, Cleaned;
    EditedLines(content, key, value, asked);
    if asked != key {
      KeptSaysTheSame(Lines(content), key, asked);
    }
  }

  predicate IsMark(c: char) {
    IsWhitespace(c) || IsDoubleQuote(c) || IsSingleQuote(c)
  }

  /** Neither padding nor a quote at either end. */
  predicate IsBare(value: string) {
    value == "" || (!IsMark(value[0]) && !IsMark(value[|value| - 1]))
  }

  /** A value survives the reader's clean-up exactly when there is nothing to clean. */
  lemma CleanExactlyWhenBare(value: string)
    ensures Cleaned(value) == value <==> IsBare(value)
  {
    hide IsWhitespace, IsDoubleQuote, IsSingleQuote, StripStart, StripEnd, Strip;
    var trimmed := Trim(value);
    var unquoted := Strip(trimmed, IsDoubleQuote);
    if IsBare(value) {
      StripFixed(value, IsWhitespace);
      StripFixed(value, IsDoubleQuote);
      StripFixed(value, IsSingleQuote);
    }
    StripWhole(value, IsWhitespace);
    StripWhole(trimmed, IsDoubleQuote);
    StripWhole(unquoted, IsSingleQuote);
  }

  /**
    Reading back gives the value itself exactly when a shadowing assignment says the same, or there is
    none and the value is bare.
   */
  lemma ReadsBackExactlyWhen(content: string, key: string, value: string)
    requires ValidKey(key) && OneLine(value)
    ensures EnvValue(Upserted(content, key, value), key) == Some(value)
      <==> (if Shadow(content, key).Some? then Shadow(content, key) == Some(value) else IsBare(value))
  {
    hide Upserted, Cleaned, Shadow, EnvValue, IsBare;
    EditReadsBack(content, key, value, key);
    CleanExactlyWhenBare(value);
  }

  /** The text is `key`, white space, and an `=` at position `k`. */
  predicate SpacedAt(trimmed: string, key: string, k: nat) {
    && |key| < k < |trimmed| && trimmed[k] == '=' && trimmed[..|key|] == key
    && forall i :: |key| <= i < k ==> IsWhitespace(trimmed[i])
  }

  /** The text is `key`, some white space, and then `=`. */
  ghost predicate IsSpaced(trimmed: string, key: string) {
    exists k :: SpacedAt(trimmed, key, k)
  }

  /** A trimmed line starts the line it comes from, and not with white space. */
  lemma TrimIsPrefix(line: string)
    ensures Trim(line) <= StripStart(line, IsWhitespace)
    ensures Trim(line) != "" ==> !IsWhitespace(Trim(line)[0])
  {
    hide IsWhitespace;
    StripEndIsPrefix(StripStart(line, IsWhitespace), IsWhitespace);
  }

  /** A prefix that trims to `key` is `key` with white space behind it. */
  lemma TrimmedPrefix(front: string, key: string)
    requires Trim(front) == key && (front != "" ==> !IsWhitespace(front[0]))
    ensures |key| <= |front| && front[..|key|] == key
    ensures forall i :: |key| <= i < |front| ==> IsWhitespace(front[i])
  {
    hide IsWhitespace;
    StripEndIsPrefix(front, IsWhitespace);
    assert StripStart(front, IsWhitespace) == front;
  }

  lemma TrimmedAnswer(trimmed: string, key: string)
    requires trimmed != "" ==> !IsWhitespace(trimmed[0])
    requires TrimmedValue(trimmed, key).Some? && !StartsWith(trimmed, key + "=")
    ensures SpacedAt(trimmed, key, Find(trimmed, '='))
  {
    hide IsWhitespace, Trim, Cleaned, Find;
    var k := Find(trimmed, '=');
    var front := trimmed[..k];
    TrimmedPrefix(front, key);
    assert forall i :: |key| <= i < k ==> trimmed[i] == front[i];
  }

  lemma AnswerIsSpaced(line: string, key: string)
    requires !Drops(line, key) && LineValue(line, key).Some?
    ensures IsSpaced(Trim(line), key)
  {
    hide IsWhitespace, Trim, TrimmedValue, StripStart, SpacedAt;
    TrimIsPrefix(line);
    TrimmedAnswer(Trim(line), key);
  }

  lemma NoSpaceIsEquals(key: string, gap: string)
    requires '=' !in key && forall i :: 0 <= i < |gap| ==> IsWhitespace(gap[i])
    ensures '=' !in key + gap
  {
    assert !IsWhitespace('=');
    hide IsWhitespace;
  }

  lemma PaddedKey(key: string, gap: string)
    requires ValidKey(key) && forall i :: 0 <= i < |gap| ==> IsWhitespace(gap[i])
    ensures Trim(key + gap) == key
  {
    hide IsWhitespace, Strip, StripStart, StripEnd;
    StripPadded("", key, gap, IsWhitespace);
    assert "" + key + gap == key + gap && "" + key == key;
    StripFixed(key, IsWhitespace);
  }

  lemma SpacedAnswer(trimmed: string, key: string, k: nat)
    requires ValidKey(key) && key != "" && SpacedAt(trimmed, key, k)
    ensures TrimmedValue(trimmed, key).Some? && !StartsWith(trimmed, key + "=")
  {
    var gap := trimmed[|key|..k];
    PaddedKey(key, gap);
    NoSpaceIsEquals(key, gap);
    assert !IsWhitespace('=') && IsWhitespace(trimmed[|key|]);
    hide IsWhitespace, Trim, Find, Cleaned;
    assert trimmed[..k] == key + gap;
    assert trimmed == (key + gap) + ['='] + trimmed[k + 1..];
    FindAfter(key + gap, '=', trimmed[k + 1..]);
    assert trimmed[0] == key[0];
    assert (key + "=")[|key|] == '=';
  }

  lemma KeyComesFirst(trimmed: string, key: string, k: nat)
    requires SpacedAt(trimmed, key, k) && !IsWhitespace(trimmed[0])
    ensures key != ""
  {
    hide IsWhitespace;
  }

  lemma SpacedIsNotDropped(line: string, key: string, k: nat)
    requires SpacedAt(Trim(line), key, k) && !StartsWith(Trim(line), key + "=")
    ensures !Drops(line, key)
  {
    hide IsWhitespace, Trim, StripStart;
    TrimIsPrefix(line);
  }

  lemma SpacedAnswers(line: string, key: string)
    requires ValidKey(key) && IsSpaced(Trim(line), key)
    ensures LineValue(line, key).Some? && !Drops(line, key)
  {
    hide IsWhitespace, Trim, TrimmedValue, Drops, ValidKey;
    var k :| SpacedAt(Trim(line), key, k);
    TrimIsPrefix(line);
    KeyComesFirst(Trim(line), key, k);
    SpacedAnswer(Trim(line), key, k);
    SpacedIsNotDropped(line, key, k);
  }

  lemma {:induction false} FirstValueExactlyWhen(lines: seq<string>, key: string)
    ensures FirstValue(lines, key).Some? <==> exists i :: 0 <= i < |lines| && LineValue(lines[i], key).Some?
  {
    hide LineValue;
    if lines == [] {
    } else {
      FirstValueExactlyWhen(lines[1..], key);
      assert forall i :: 0 < i < |lines| ==> lines[i] == lines[1..][i - 1];
    }
  }

  lemma {:induction false} KeptLines(lines: seq<string>, key: string)
    ensures forall line :: line in Kept(lines, key) <==> line in lines && !Drops(line, key)
  {
    hide Drops;
    if lines == [] {
    } else {
      KeptLines(lines[1..], key);
      assert lines == [lines[0]] + lines[1..];
    }
  }

  /**
    Something shadows a key exactly when a line of the file, white space around it aside, spells it with
    space before the `=`.
   */
  lemma ShadowExactlyWhen(content: string, key: string)
    requires ValidKey(key)
    ensures Shadow(content, key).Some? <==> exists line :: line in Lines(content) && IsSpaced(Trim(line), key)
  {
    hide Lines, Kept, LineValue, Drops, IsSpaced, ValidKey, Trim;
    var lines := Lines(content);
    var kept := Kept(lines, key);
    KeptLines(lines, key);
    FirstValueExactlyWhen(kept, key);
    forall line | line in lines
      ensures IsSpaced(Trim(line), key) <==> line in kept && LineValue(line, key).Some?
    {
      if IsSpaced(Trim(line), key) {
        SpacedAnswers(line, key);
      } else if line in kept && LineValue(line, key).Some? {
        AnswerIsSpaced(line, key);
      }
    }
    assert forall i :: 0 <= i < |kept| ==> kept[i] in kept;
  }

  lemma SpacedLineKept(key: string, earlier: string)
    requires ValidKey(key) && key != ""
    ensures StripStart(key + " = " + earlier, IsWhitespace) == key + " = " + earlier
    ensures !Drops(key + " = " + earlier, key)
  {
    var content := key + " = " + earlier;
    assert content[0] == key[0] && content[|key|] == ' ' && (key + "=")[|key|] == '=';
    hide IsWhitespace;
  }

  lemma SpacedLineTrimmed(key: string, earlier: string)
    requires ValidKey(key) && key != ""
    ensures Trim(key + " = " + earlier) == key + " =" + StripEnd(" " + earlier, IsWhitespace)
  {
    assert !IsWhitespace('=');
    hide IsWhitespace, StripEnd;
    SpacedLineKept(key, earlier);
    StripEndKeepsFront(key + " =", " " + earlier);
    assert key + " =" + (" " + earlier) == key + " = " + earlier;
  }

  lemma CleanedIgnoresStart(earlier: string)
    ensures Cleaned(" " + earlier) == Cleaned(earlier)
  {
    StripPadded(" ", earlier, "", IsWhitespace);
    assert " " + earlier + "" == " " + earlier;
  }

  lemma SpacedValue(key: string, end: string)
    requires ValidKey(key) && key != ""
    ensures TrimmedValue(key + " =" + end, key) == Some(Cleaned(end))
  {
    var trimmed := key + " =" + end;
    assert trimmed[0] == key[0];
    assert Find(trimmed, '=') == |key| + 1 by {
      assert trimmed == (key + " ") + ['='] + end;
      FindAfter(key + " ", '=', end);
    }
    assert Trim(key + " ") == key by {
      StripPadded("", key, " ", IsWhitespace);
      assert "" + key + " " == key + " ";
      StripFixed(key, IsWhitespace);
    }
    hide Find, Trim, Cleaned, ValidKey;
    assert trimmed[..|key| + 1] == key + " " && trimmed[|key| + 2..] == end;
  }

  lemma SpacedLine(key: string, earlier: string)
    requires ValidKey(key) && key != ""
    ensures !Drops(key + " = " + earlier, key)
    ensures LineValue(key + " = " + earlier, key) == Some(Cleaned(earlier))
  {
    SpacedLineKept(key, earlier);
    SpacedLineTrimmed(key, earlier);
    hide Trim, Cleaned, TrimmedValue, StripEnd, IsWhitespace, ValidKey;
    SpacedValue(key, StripEnd(" " + earlier, IsWhitespace));
    CleanedIgnoresEnd(" " + earlier);
    CleanedIgnoresStart(earlier);
  }

  /** `KEY = earlier` is such an assignment: the editor keeps it, and the reader goes on answering `earlier`. */
  lemma SpacedAssignmentShadows(key: string, earlier: string, value: string)
    requires ValidKey(key) && key != "" && OneLine(earlier) && OneLine(value)
    ensures Shadow(key + " = " + earlier, key) == Some(Cleaned(earlier))
    ensures EnvValue(Upserted(key + " = " + earlier, key, value), key) == Some(Cleaned(earlier))
  {
    var content := key + " = " + earlier;
    assert Lines(content) == [content] by { FindNone(content, '\n'); }
    assert [content][0] == content;
    hide Lines, Upserted, LineValue, Drops, Cleaned, ValidKey, FirstValue, Kept;
    EditReadsBack(content, key, value, key);
    SpacedLine(key, earlier);
    OneLineFile([content], key);
  }

  /** No edit introduces or removes a shadowing assignment. */
  lemma EditKeepsShadow(content: string, key: string, value: string, asked: string)
    requires ValidKey(key) && OneLine(value)
    ensures Shadow(Upserted(content, key, value), asked) == Shadow(content, asked)
  {
    hide Lines, Kept, FirstValue, Upserted, Cleaned;
    EditedLines(content, key, value, asked);
    KeptTwice(Lines(content), key, asked);
  }

  // ---------------------------------------------------------------------------------------
  // Any sequence of edits.

  datatype Edit = Edit(key: string, value: string)

  ghost predicate ValidEdits(edits: seq<Edit>) {
    forall i :: 0 <= i < |edits| ==> ValidKey(edits[i].key) && OneLine(edits[i].value)
  }

  function Edited(content: string, edits: seq<Edit>): string {
    if edits == [] then content
    else
      var last := edits[|edits| - 1];
      Upserted(Edited(content, edits[..|edits| - 1]), last.key, last.value)
  }

  /** The last value an edit gives to `key`. */
  function LastEdit(edits: seq<Edit>, key: string): Option<string> {
    if edits == [] then None
    else if edits[|edits| - 1].key == key then Some(edits[|edits| - 1].value)
    else LastEdit(edits[..|edits| - 1], key)
  }

  /**
    After any edits each key reads as what shadowed it at the start, if anything, and else as the value
    of its last edit cleaned; keys nobody edited read as before.
   */
  lemma {:induction false} EditsReadBack(content: string, edits: seq<Edit>, key: string)
    requires ValidEdits(edits)
    ensures Shadow(Edited(content, edits), key) == Shadow(content, key)
    ensures EnvValue(Edited(content, edits), key) ==
      match LastEdit(edits, key)
      case None => EnvValue(content, key)
      case Some(value) => OrElse(Shadow(content, key), Some(Cleaned(value)))
  {
    hide Upserted, Cleaned, Shadow, EnvValue;
    if edits == [] {
    } else {
      var init, last := edits[..|edits| - 1], edits[|edits| - 1];
      EditsReadBack(content, init, key);
      EditKeepsShadow(Edited(content, init), last.key, last.value, key);
      EditReadsBack(Edited(content, init), last.key, last.value, key);
      if last.key == key {
        EditsReadBack(content, init, last.key);
      }
    }
  }

  // ---------------------------------------------------------------------------------------
  // Values of any shape.

  predicate IsPlain(c: char) {
    'a' <= c <= 'z' || 'A' <= c <= 'Z' || '0' <= c <= '9' || c in {'_', '-', '.', '/', ':', '@'}
  }

  function EscapedChar(c: char): string {
    if c == '\\' then "\\\\"
    else if c == '"' then "\\\""
    else if c == '\n' then "\\n"
    else if c == '\r' then "\\r"
    else [c]
  }

  function Escaped(value: string): string {
    if value == "" then "" else Escaped(value[..|value| - 1]) + EscapedChar(value[|value| - 1])
  }

  function Formatted(value: string): string {
    if forall i :: 0 <= i < |value| ==> IsPlain(value[i]) then value else "\"" + Escaped(value) + "\""
  }

  /** `format_env_value`. */
  method FormatEnvValue(value: string) returns (formatted: string)
    ensures formatted == Formatted(value)
  {
    if forall i :: 0 <= i < |value| ==> IsPlain(value[i]) {
      return value;
    }
    var escaped := "";
    for i := 0 to |value|
      invariant escaped == Escaped(value[..i])
    {
      assert value[..i + 1][..i] == value[..i];
      escaped := escaped + EscapedChar(value[i]);
    }
    assert value[..|value|] == value;
    return "\"" + escaped + "\"";
  }

  /** Undoing the escapes of a double-quoted value. */
  function Unescaped(s: string): string {
    if s == "" then ""
    else if s[0] == '\\' && |s| > 1 then
      [if s[1] == 'n' then '\n' else if s[1] == 'r' then '\r' else s[1]] + Unescaped(s[2..])
    else [s[0]] + Unescaped(s[1..])
  }

  function Unformatted(s: string): string {
    if |s| >= 2 && s[0] == '"' then Unescaped(s[1..|s| - 1]) else s
  }

  lemma EscapedParts(value: string, rest: string)
    ensures value == "" ==> Escaped(value) + rest == rest
    ensures value != "" ==>
      Escaped(value) + rest == Escaped(value[..|value| - 1]) + (EscapedChar(value[|value| - 1]) + rest)
  {
    hide EscapedChar;
  }

  lemma UnescapeChar(c: char, rest: string)
    ensures Unescaped(EscapedChar(c) + rest) == [c] + Unescaped(rest)
  {
    var s := EscapedChar(c) + rest;
    if |EscapedChar(c)| == 2 {
      assert s[2..] == rest;
    } else {
      assert s[1..] == rest;
    }
  }

  lemma {:induction false} UnescapeEscaped(value: string, rest: string)
    ensures Unescaped(Escaped(value) + rest) == value + Unescaped(rest)
  {
    EscapedParts(value, rest);
    hide *;
    if value == "" {
      assert value + Unescaped(rest) == Unescaped(rest);
    } else {
      var init, c := value[..|value| - 1], value[|value| - 1];
      UnescapeEscaped(init, EscapedChar(c) + rest);
      UnescapeChar(c, rest);
      assert init + ([c] + Unescaped(rest)) == value + Unescaped(rest);
    }
  }

  /** Every value, whatever characters it holds, can be recovered from the text written for it. */
  lemma FormatRoundTrip(value: string)
    ensures Unformatted(Formatted(value)) == value
  {
    if exists i :: 0 <= i < |value| && !IsPlain(value[i]) {
      UnescapeEscaped(value, "");
      var s := Formatted(value);
      assert s[1..|s| - 1] == Escaped(value) == Escaped(value) + "";
      assert Unescaped("") == "";
    } else if value != "" {
      assert IsPlain(value[0]);
    }
  }

  lemma EscapedCharIsOneLine(c: char)
    ensures OneLine(EscapedChar(c)) && '\r' !in EscapedChar(c)
  {}

  lemma {:induction false} EscapedIsOneLine(value: string)
    ensures OneLine(Escaped(value)) && '\r' !in Escaped(value)
  {
    hide EscapedChar;
    if value == "" {
    } else {
      EscapedIsOneLine(value[..|value| - 1]);
      EscapedCharIsOneLine(value[|value| - 1]);
    }
  }

  lemma FormattedIsOneLine(value: string)
    ensures OneLine(Formatted(value))
  {
    EscapedIsOneLine(value);
    if forall i :: 0 <= i < |value| ==> IsPlain(value[i]) {
      assert forall i :: 0 <= i < |value| ==> value[i] != '\n';
    }
  }

  /** `persist_env_value` with any value at all, line breaks included, leaves every other key as it was. */
  lemma PersistKeepsOtherKeys(content: string, key: string, value: string, asked: string)
    requires ValidKey(key) && asked != key
    ensures EnvValue(Upserted(content, key, Formatted(value)), asked) == EnvValue(content, asked)
  {
    hide Upserted, EnvValue, Formatted;
    FormattedIsOneLine(value);
    EditReadsBack(content, key, Formatted(value), asked);
  }
}
