/**
  The text the `.env` editor leaves behind, line by line, and what the reader and the formatter make of a
  value (services/patchhive-launcher/src/main.rs and crates/patchhive-product-core/src/auth.rs).
 */
module EnvText {
  import opened Wrappers
  import opened Text
  import opened EnvFile

  // ---------------------------------------------------------------------------------------
  // Which lines go.

  predicate AssignsAt(line: string, key: string, k: nat) {
    && k + |key| < |line| && line[k..k + |key|] == key && line[k + |key|] == '='
    && forall i :: 0 <= i < k ==> IsWhitespace(line[i])
  }

  /** After white space, the line has the key and directly behind it `=`. */
  ghost predicate Assigns(line: string, key: string) {
    exists k :: AssignsAt(line, key, k)
  }

  lemma DroppedAssigns(line: string, key: string)
    requires Drops(line, key)
    ensures AssignsAt(line, key, |line| - |StripStart(line, IsWhitespace)|)
  {
    StripStartIsSuffix(line, IsWhitespace);
    hide IsWhitespace;
    var start := StripStart(line, IsWhitespace);
    assert start[..|key| + 1] == key + "=";
    assert start[|key|] == (key + "=")[|key|] == '=';
    assert start[..|key|] == (key + "=")[..|key|] == key;
  }

  lemma AssigningDropped(line: string, key: string, k: nat)
    requires ValidKey(key) && AssignsAt(line, key, k)
    ensures Drops(line, key)
  {
    var pre, rest := line[..k], line[k..];
    assert rest[..|key|] == key && rest[|key|] == '=' && rest[..|key| + 1] == key + "=";
    assert rest[0] == if key == "" then '=' else key[0];
    assert !IsWhitespace('=');
    assert pre + rest == line && forall c :: c in pre ==> IsWhitespace(c);
    StripStartPadded(pre, rest, IsWhitespace);
    hide IsWhitespace;
    assert StripStart(rest, IsWhitespace) == rest;
  }

  lemma DropsExactlyWhen(line: string, key: string)
    requires ValidKey(key)
    ensures Drops(line, key) <==> Assigns(line, key)
  {
    hide Drops, AssignsAt, ValidKey;
    if Drops(line, key) {
      DroppedAssigns(line, key);
    }
    if Assigns(line, key) {
      var k :| AssignsAt(line, key, k);
      AssigningDropped(line, key, k);
    }
  }

  // ---------------------------------------------------------------------------------------
  // The text.

  /** Each line followed by a line feed. */
  function Unlines(lines: seq<string>): string {
    if lines == [] then "" else lines[0] + "\n" + Unlines(lines[1..])
  }

  lemma {:induction false} JoinedWithFeed(lines: seq<string>)
    requires lines != []
    ensures JoinLines(lines) + "\n" == Unlines(lines)
  {
    if |lines| == 1 {
      assert lines[1..] == [];
      assert lines[0] + "\n" + "" == lines[0] + "\n";
    } else {
      var tail := JoinLines(lines[1..]);
      JoinedWithFeed(lines[1..]);
      assert lines[0] + "\n" + tail + "\n" == lines[0] + "\n" + (tail + "\n");
    }
  }

  ghost predicate IsBlank(line: string) {
    forall c :: c in line ==> IsWhitespace(c)
  }

  lemma BlankConcat(a: string, b: string)
    ensures IsBlank(a + "\n" + b) <==> IsBlank(a) && IsBlank(b)
  {
    assert IsWhitespace('\n');
    hide IsWhitespace;
    assert forall c :: c in a + "\n" + b <==> c in a || c == '\n' || c in b;
  }

  lemma EmptyIsBlank()
    ensures IsBlank("")
  {}

  lemma {:induction false} JoinIsBlank(lines: seq<string>)
    ensures IsBlank(JoinLines(lines)) <==> forall line :: line in lines ==> IsBlank(line)
  {
    hide IsBlank;
    if lines == [] {
      EmptyIsBlank();
    } else if |lines| == 1 {
      assert forall line :: line in lines <==> line == lines[0];
    } else {
      JoinIsBlank(lines[1..]);
      BlankConcat(lines[0], JoinLines(lines[1..]));
      assert lines == [lines[0]] + lines[1..];
    }
  }

  lemma TrimmedAway(s: string)
    ensures Trim(s) == "" <==> IsBlank(s)
  {
    hide IsWhitespace;
    AllWhitespace(s);
    assert forall i :: 0 <= i < |s| ==> s[i] in s;
    hide Trim;
  }

  ghost predicate Increasing(positions: seq<nat>) {
    forall i, j :: 0 <= i < j < |positions| ==> positions[i] < positions[j]
  }

  /** These are the positions of the lines that do not assign to the key, in order. */
  ghost predicate Survivors(kept: seq<nat>, lines: seq<string>, key: string) {
    && Increasing(kept)
    && forall i :: i in kept <==> 0 <= i < |lines| && !Assigns(lines[i], key)
  }

  /** The lines at these positions. */
  function At(lines: seq<string>, positions: seq<nat>): seq<string>
    requires forall j :: 0 <= j < |positions| ==> positions[j] < |lines|
  {
    if positions == [] then [] else [lines[positions[0]]] + At(lines, positions[1..])
  }

  function Shifted(positions: seq<nat>): (r: seq<nat>)
    ensures |r| == |positions| && forall j :: 0 <= j < |r| ==> r[j] == positions[j] + 1
  {
    seq(|positions|, j requires 0 <= j < |positions| => positions[j] + 1)
  }

  lemma {:induction false} ShiftedAt(lines: seq<string>, positions: seq<nat>)
    requires lines != [] && forall j :: 0 <= j < |positions| ==> positions[j] < |lines| - 1
    ensures At(lines, Shifted(positions)) == At(lines[1..], positions)
  {
    if positions == [] {
    } else {
      ShiftedAt(lines, positions[1..]);
      assert Shifted(positions)[1..] == Shifted(positions[1..]);
    }
  }

  lemma ShiftedSurvivors(kept: seq<nat>, lines: seq<string>, key: string)
    requires lines != [] && Survivors(kept, lines[1..], key)
    ensures Assigns(lines[0], key) ==> Survivors(Shifted(kept), lines, key)
    ensures !Assigns(lines[0], key) ==> Survivors([0] + Shifted(kept), lines, key)
  {
    hide Assigns;
    var shifted := Shifted(kept);
    forall i
      ensures i in shifted <==> i - 1 in kept
    {
      if i in shifted {
        var j :| 0 <= j < |shifted| && shifted[j] == i;
        assert kept[j] == i - 1;
      }
      if i - 1 in kept {
        var j :| 0 <= j < |kept| && kept[j] == i - 1;
        assert shifted[j] == i;
      }
    }
    assert forall i :: 0 < i < |lines| ==> lines[i] == lines[1..][i - 1];
    assert forall i :: i in [0] + shifted <==> i == 0 || i in shifted;
  }

  lemma {:induction false} KeptSurvivors(lines: seq<string>, key: string) returns (kept: seq<nat>)
    requires ValidKey(key)
    ensures Survivors(kept, lines, key) && (forall j :: 0 <= j < |kept| ==> kept[j] < |lines|)
    ensures Kept(lines, key) == At(lines, kept)
  {
    hide Drops, Assigns, ValidKey;
    if lines == [] {
      kept := [];
    } else {
      var rest := KeptSurvivors(lines[1..], key);
      DropsExactlyWhen(lines[0], key);
      ShiftedSurvivors(rest, lines, key);
      ShiftedAt(lines, rest);
      hide Survivors;
      if Assigns(lines[0], key) {
        kept := Shifted(rest);
      } else {
        kept := [0] + Shifted(rest);
        assert kept[1..] == Shifted(rest);
      }
    }
  }

  /**
    An edit writes every old line that does not assign to the key, in order, and then the assignment; if there
    is nothing but white space to keep, it writes the assignment alone.
   */
  lemma EditedText(content: string, key: string, value: string) returns (kept: seq<nat>)
    requires ValidKey(key)
    ensures Survivors(kept, Lines(content), key) && forall j :: 0 <= j < |kept| ==> kept[j] < |Lines(content)|
    ensures Upserted(content, key, value)
      == (if forall line :: line in At(Lines(content), kept) ==>
        IsBlank(line) then "" else Unlines(At(Lines(content), kept)))
         + (key + "=" + value + "\n")
  {
    hide Lines, IsBlank, ValidKey, Survivors;
    kept := KeptSurvivors(Lines(content), key);
    var lines := Kept(Lines(content), key);
    JoinIsBlank(lines);
    TrimmedAway(JoinLines(lines));
    hide Kept, At, Trim, Unlines;
    var last := key + "=" + value + "\n";
    if lines != [] {
      JoinedWithFeed(lines);
      hide JoinLines;
      assert JoinLines(lines) + "\n" + last == Unlines(lines) + last;
    } else {
      assert "" + last == last;
    }
    assert "" + last == last;
  }

  /** A line that does not assign to the key is still there, less one carriage return,
    if anything but white space is kept. */
  lemma LineSurvives(content: string, key: string, value: string, line: string, other: string)
    requires ValidKey(key) && OneLine(value)
    requires line in Lines(content) && !Assigns(line, key)
    requires other in Lines(content) && !Assigns(other, key) && Trim(other) != ""
    ensures StripCarriageReturn(line) in Lines(Upserted(content, key, value))
  {
    hide Lines, Assigns, Drops, Upserted, Trim, ValidKey, OneLine, NewLine, StripCarriageReturn, JoinLines, IsBlank;
    var lines := Lines(content);
    var kept := Kept(lines, key);
    KeptLines(lines, key);
    DropsExactlyWhen(line, key);
    DropsExactlyWhen(other, key);
    UpsertedLines(content, key, value);
    JoinIsBlank(kept);
    TrimmedAway(JoinLines(kept));
    TrimmedAway(other);
    hide Kept;
    var i :| 0 <= i < |kept| && kept[i] == line;
    assert StripCarriageReturns(kept)[i] == StripCarriageReturn(line);
  }

  lemma CommentIsKept(line: string, key: string)
    requires ValidKey(key) && Trim(line) != "" && Trim(line)[0] == '#'
    ensures !Assigns(line, key)
  {
    TrimIsPrefix(line);
    DropsExactlyWhen(line, key);
    hide Trim, StripStart, IsWhitespace, Assigns;
    var start := StripStart(line, IsWhitespace);
    assert start[0] == Trim(line)[0] == '#';
    assert (key + "=")[0] == if key == "" then '=' else key[0];
  }

  /** Every comment survives every edit. */
  lemma CommentsSurvive(content: string, key: string, value: string, line: string)
    requires ValidKey(key) && OneLine(value)
    requires line in Lines(content) && Trim(line) != "" && Trim(line)[0] == '#'
    ensures StripCarriageReturn(line) in Lines(Upserted(content, key, value))
  {
    CommentIsKept(line, key);
    hide *;
    LineSurvives(content, key, value, line, line);
  }

  /** So does every line without `=`, where anything but white space is kept. */
  lemma PlainLinesSurvive(content: string, key: string, value: string, line: string, other: string)
    requires ValidKey(key) && OneLine(value)
    requires line in Lines(content) && '=' !in line
    requires other in Lines(content) && !Assigns(other, key) && Trim(other) != ""
    ensures StripCarriageReturn(line) in Lines(Upserted(content, key, value))
  {
    assert !Assigns(line, key);
    hide *;
    LineSurvives(content, key, value, line, other);
  }

  // ---------------------------------------------------------------------------------------
  // Values.

  lemma PeelDouble(s: string)
    requires s != "" && !IsDoubleQuote(s[0]) && !IsDoubleQuote(s[|s| - 1])
    ensures Strip(Trim("\"" + s + "\""), IsDoubleQuote) == s
  {
    var quoted := "\"" + s + "\"";
    assert !IsWhitespace(quoted[0]) && !IsWhitespace(quoted[|quoted| - 1]);
    assert IsDoubleQuote('"');
    hide IsWhitespace, IsDoubleQuote, StripStart, StripEnd;
    StripFixed(quoted, IsWhitespace);
    StripPadded("\"", s, "\"", IsDoubleQuote);
    StripFixed(s, IsDoubleQuote);
  }

  lemma PeelSingle(s: string)
    requires s != "" && !IsSingleQuote(s[0]) && !IsSingleQuote(s[|s| - 1])
    ensures Strip("'" + s + "'", IsSingleQuote) == s
  {
    assert IsSingleQuote('\'');
    hide IsSingleQuote, StripStart, StripEnd;
    StripPadded("'", s, "'", IsSingleQuote);
    StripFixed(s, IsSingleQuote);
  }

  lemma KeepOutside(s: string)
    ensures Strip(Trim("'" + s + "'"), IsDoubleQuote) == "'" + s + "'"
  {
    var quoted := "'" + s + "'";
    assert !IsWhitespace(quoted[0]) && !IsWhitespace(quoted[|quoted| - 1]);
    assert !IsDoubleQuote(quoted[0]) && !IsDoubleQuote(quoted[|quoted| - 1]);
    hide IsWhitespace, IsDoubleQuote, StripStart, StripEnd;
    StripFixed(quoted, IsWhitespace);
    StripFixed(quoted, IsDoubleQuote);
  }

  /** The reader peels double quotes first and single quotes after them, and no further. */
  lemma QuotesPeelInOrder(value: string)
    requires IsBare(value) && value != ""
    ensures Cleaned("\"'" + value + "'\"") == value
    ensures Cleaned("'\"" + value + "\"'") == "\"" + value + "\""
  {
    var single, double := "'" + value + "'", "\"" + value + "\"";
    assert "\"" + single + "\"" == "\"'" + value + "'\"" && "'" + double + "'" == "'\"" + value + "\"'";
    PeelDouble(single);
    PeelSingle(value);
    KeepOutside(double);
    PeelSingle(double);
  }

  lemma {:induction false} LongerWhenEscaped(value: string)
    ensures |Escaped(value)| >= |value|
  {
    if value == "" {
    } else {
      LongerWhenEscaped(value[..|value| - 1]);
    }
  }

  /** A value is written as it is exactly when it holds nothing but letters, digits and these six marks. */
  lemma WrittenPlainExactlyWhen(value: string)
    ensures Formatted(value) == value <==>
      forall i :: 0 <= i < |value| ==>
        'a' <= value[i] <= 'z' || 'A' <= value[i] <= 'Z' || '0' <= value[i] <= '9' || value[i] in "_-./:@"
  {
    hide Escaped;
    if exists i :: 0 <= i < |value| && !IsPlain(value[i]) {
      var i :| 0 <= i < |value| && !IsPlain(value[i]);
      var s := Formatted(value);
      if s == value {
        LongerWhenEscaped(value);
      }
    }
  }
}
