/**
  The launcher's credential form (services/patchhive-launcher/src/main.rs, `write_product_env`): several
  edits in a row.
 */
module LauncherEnv {
  import opened Wrappers
  import opened Text
  import opened EnvFile

  predicate IsMultiLine(value: string) {
    '\n' in value || '\r' in value
  }

  /** The trimmed value given for a key, if it is not blank. */
  function Given(values: map<string, string>, key: string): Option<string> {
    if key in values && Trim(values[key]) != "" then Some(Trim(values[key])) else None
  }

  predicate Rejects(values: map<string, string>, key: string) {
    Given(values, key).Some? && IsMultiLine(Given(values, key).value)
  }

  /** The edits for the keys in `definitions`, in order. */
  function FormEdits(definitions: seq<string>, values: map<string, string>): seq<Edit> {
    if definitions == [] then []
    else
      var key := definitions[|definitions| - 1];
      FormEdits(definitions[..|definitions| - 1], values)
      + match Given(values, key) case None => [] case Some(value) => [Edit(key, value)]
  }

  predicate AllSupported(definitions: seq<string>, values: map<string, string>) {
    definitions != [] && forall key :: key in values ==> key in definitions
  }

  predicate NoneRejected(definitions: seq<string>, values: map<string, string>) {
    forall i :: 0 <= i < |definitions| ==> !Rejects(values, definitions[i])
  }

  /** How the update of the file for one key ends; an error may come after the new file is in place. */
  datatype Outcome = Written | FailedBefore | FailedAfter

  type Outcomes = string -> Outcome

  /** The form ends with an error at this key: its value is refused, or the file update for it fails. */
  predicate Stops(values: map<string, string>, outcomes: Outcomes, key: string) {
    Rejects(values, key) || (Given(values, key).Some? && !outcomes(key).Written?)
  }

  predicate NoneStops(definitions: seq<string>, values: map<string, string>, outcomes: Outcomes) {
    forall i :: 0 <= i < |definitions| ==> !Stops(values, outcomes, definitions[i])
  }

  /** The last key still reaches the file if its update failed after replacing it. */
  function Partial(values: map<string, string>, outcomes: Outcomes, key: string): seq<string> {
    if !Rejects(values, key) && outcomes(key).FailedAfter? then [key] else []
  }

  /** The keys whose values reach the file: those before the first one the form stops at, and perhaps that one. */
  function Accepted(definitions: seq<string>, values: map<string, string>, outcomes: Outcomes): seq<string> {
    if definitions == [] then []
    else if Stops(values, outcomes, definitions[0]) then Partial(values, outcomes, definitions[0])
    else [definitions[0]] + Accepted(definitions[1..], values, outcomes)
  }

  lemma {:induction false} AcceptedUpTo(
    definitions: seq<string>, values: map<string, string>, outcomes: Outcomes, n: nat)
    requires n <= |definitions| && NoneStops(definitions[..n], values, outcomes)
    requires n < |definitions| ==> Stops(values, outcomes, definitions[n])
    ensures Accepted(definitions, values, outcomes)
      == definitions[..n] + if n < |definitions| then Partial(values, outcomes, definitions[n]) else []
  {
    hide Stops, Partial;
    if n == 0 {
    } else {
      assert !Stops(values, outcomes, definitions[..n][0]);
      assert definitions[..n][1..] == definitions[1..][..n - 1];
      AcceptedUpTo(definitions[1..], values, outcomes, n - 1);
    }
  }

  lemma FormEditsNext(definitions: seq<string>, values: map<string, string>, i: nat)
    requires i < |definitions|
    ensures FormEdits(definitions[..i + 1], values)
      == FormEdits(definitions[..i], values)
         + match Given(values, definitions[i]) case None => [] case Some(value) => [Edit(definitions[i], value)]
    ensures Given(values, definitions[i]) == None ==>
      FormEdits(definitions[..i + 1], values) == FormEdits(definitions[..i], values)
  {
    hide Given;
    assert definitions[..i + 1][..i] == definitions[..i];
    assert FormEdits(definitions[..i], values) + [] == FormEdits(definitions[..i], values);
  }

  lemma FormEditsStart(content: string, definitions: seq<string>, values: map<string, string>)
    ensures FormEdits(definitions[..0], values) == []
    ensures Edited(content, []) == content
  {
  }

  lemma EditedNext(content: string, edits: seq<Edit>, edit: Edit)
    ensures Edited(content, edits + [edit]) == Upserted(Edited(content, edits), edit.key, edit.value)
  {
    hide Upserted;
    assert (edits + [edit])[..|edits|] == edits;
  }

  /** `ensure_env_file`: a missing file starts as a copy of its example, or empty. */
  function Ensured(file: Option<string>, example: Option<string>): string {
    match OrElse(file, example) case Some(content) => content case None => ""
  }

  lemma PartialIsOne(values: map<string, string>, outcomes: Outcomes, key: string)
    ensures Partial(values, outcomes, key) == [] || Partial(values, outcomes, key) == [key]
  {}

  lemma StoppedEdits(definitions: seq<string>, values: map<string, string>, outcomes: Outcomes, i: nat)
    requires i < |definitions|
    requires NoneStops(definitions[..i], values, outcomes) && Stops(values, outcomes, definitions[i])
    ensures var reached := if Partial(values, outcomes, definitions[i]) == [] then i else i + 1;
      FormEdits(Accepted(definitions, values, outcomes), values) == FormEdits(definitions[..reached], values)
  {
    hide FormEdits, Stops, Partial, Accepted;
    AcceptedUpTo(definitions, values, outcomes, i);
    assert definitions[..i] + [] == definitions[..i];
    assert Partial(values, outcomes, definitions[i]) in {[], [definitions[i]]} by {
      PartialIsOne(values, outcomes, definitions[i]);
    }
    assert definitions[..i] + [definitions[i]] == definitions[..i + 1];
  }

  lemma StopsExactly(values: map<string, string>, outcomes: Outcomes, key: string)
    ensures var given := Given(values, key);
      && (Stops(values, outcomes, key) <==> given.Some? && (IsMultiLine(given.value) || !outcomes(key).Written?))
      && (Partial(values, outcomes, key) == []
          <==> (given.Some? && IsMultiLine(given.value)) || !outcomes(key).FailedAfter?)
  {
    hide Given, IsMultiLine;
  }

  lemma NoneStopsYet(definitions: seq<string>, values: map<string, string>, outcomes: Outcomes)
    ensures NoneStops(definitions[..0], values, outcomes)
  {}

  lemma NoneStopsNext(definitions: seq<string>, values: map<string, string>, outcomes: Outcomes, i: nat)
    requires i < |definitions| && NoneStops(definitions[..i], values, outcomes)
    requires !Stops(values, outcomes, definitions[i])
    ensures NoneStops(definitions[..i + 1], values, outcomes)
  {
    hide Stops;
    assert forall j :: 0 <= j < i ==> definitions[..i + 1][j] == definitions[..i][j];
  }

  lemma NotNoneStops(definitions: seq<string>, values: map<string, string>, outcomes: Outcomes, i: nat)
    requires i < |definitions| && Stops(values, outcomes, definitions[i])
    ensures !NoneStops(definitions, values, outcomes)
  {}

  /** What the file holds if the form stops at the i-th key. */
  lemma StoppedAt(
    content: string, definitions: seq<string>, values: map<string, string>, outcomes: Outcomes, i: nat)
    requires i < |definitions| && NoneStops(definitions[..i], values, outcomes)
    requires Given(values, definitions[i]).Some?
    requires IsMultiLine(Given(values, definitions[i]).value) || !outcomes(definitions[i]).Written?
    ensures !NoneStops(definitions, values, outcomes)
    ensures var before := Edited(content, FormEdits(definitions[..i], values));
      var value := Given(values, definitions[i]).value;
      Edited(content, FormEdits(Accepted(definitions, values, outcomes), values))
      == if IsMultiLine(value) || !outcomes(definitions[i]).FailedAfter? then before
         else Upserted(before, definitions[i], value)
  {
    hide Upserted, Edited, FormEdits, Accepted, Given, IsMultiLine, Stops, Partial, NoneStops;
    StopsExactly(values, outcomes, definitions[i]);
    StoppedEdits(definitions, values, outcomes, i);
    NotNoneStops(definitions, values, outcomes, i);
    FormEditsNext(definitions, values, i);
    EditedNext(
      content, FormEdits(definitions[..i], values), Edit(definitions[i], Given(values, definitions[i]).value));
  }

  /** What the file holds if the form goes on after the i-th key. */
  lemma WentOn(content: string, definitions: seq<string>, values: map<string, string>, outcomes: Outcomes, i: nat)
    requires i < |definitions| && NoneStops(definitions[..i], values, outcomes)
    requires Given(values, definitions[i]).Some? ==>
      !IsMultiLine(Given(values, definitions[i]).value) && outcomes(definitions[i]).Written?
    ensures NoneStops(definitions[..i + 1], values, outcomes)
    ensures var before, after := FormEdits(definitions[..i], values), FormEdits(definitions[..i + 1], values);
      match Given(values, definitions[i])
      case None => after == before
      case Some(value) =>
        && |after| == |before| + 1
        && Edited(content, after) == Upserted(Edited(content, before), definitions[i], value)
  {
    hide Upserted, Edited, FormEdits, Given, IsMultiLine, Stops, Partial, NoneStops;
    StopsExactly(values, outcomes, definitions[i]);
    NoneStopsNext(definitions, values, outcomes, i);
    FormEditsNext(definitions, values, i);
    if Given(values, definitions[i]).Some? {
      EditedNext(
        content, FormEdits(definitions[..i], values), Edit(definitions[i], Given(values, definitions[i]).value));
    }
  }

  lemma WentThrough(definitions: seq<string>, values: map<string, string>, outcomes: Outcomes)
    requires NoneStops(definitions[..|definitions|], values, outcomes)
    ensures NoneStops(definitions, values, outcomes)
    ensures definitions[..|definitions|] == definitions
    ensures Accepted(definitions, values, outcomes) == definitions
  {
    hide NoneStops, Accepted, Stops, Partial;
    AcceptedUpTo(definitions, values, outcomes, |definitions|);
    assert definitions[..|definitions|] == definitions && definitions + [] == definitions;
  }

  lemma UnsupportedExactlyWhen(definitions: seq<string>, values: map<string, string>)
    ensures !AllSupported(definitions, values) <==>
      definitions == [] || exists key :: key in values && key !in definitions
  {}

  /**
    The form is checked key by key as it is written, so the edits before a refused value or a failing
    update stay: the file, created first if need be, holds exactly the edits for the keys the form got
    through, whatever the answer. At the end its permissions are tightened, which may fail too.
   */
  method WriteProductEnv(
    file: Option<string>, example: Option<string>, definitions: seq<string>, values: map<string, string>,
    outcomes: Outcomes, hardened: bool)
    returns (r: Result<nat, string>, after: string)
    ensures !AllSupported(definitions, values) ==> r.Err? && after == Ensured(file, example)
    ensures definitions == [] || (exists key :: key in values && key !in definitions) ==>
      r.Err? && after == Ensured(file, example)
    ensures AllSupported(definitions, values) ==>
      after == Edited(Ensured(file, example), FormEdits(Accepted(definitions, values, outcomes), values))
    ensures r.Ok? <==> (AllSupported(definitions, values) && NoneStops(definitions, values, outcomes)
                        && FormEdits(definitions, values) != [] && hardened)
    ensures r.Ok? ==> r.value == |FormEdits(definitions, values)|
  {
    hide Trim, Upserted, Edited, FormEdits, Accepted, Given, AllSupported, IsMultiLine, Stops, Partial, NoneStops;
    UnsupportedExactlyWhen(definitions, values);
    var content := if file.Some? then file.value else if example.Some? then example.value else "";
    after := content;
    if !AllSupported(definitions, values) {
      return Err("unsupported key"), content;
    }
    var wrote := 0;
    FormEditsStart(content, definitions, values);
    NoneStopsYet(definitions, values, outcomes);
    for i := 0 to |definitions|
      invariant after == Edited(content, FormEdits(definitions[..i], values))
      invariant wrote == |FormEdits(definitions[..i], values)|
      invariant NoneStops(definitions[..i], values, outcomes)
    {
      var key := definitions[i];
      var given := Given(values, key);
      if given.Some? {
        if IsMultiLine(given.value) {
          StoppedAt(content, definitions, values, outcomes, i);
          return Err("multi-line value"), after;
        }
        if !outcomes(key).Written? {
          StoppedAt(content, definitions, values, outcomes, i);
          if outcomes(key).FailedAfter? {
            after := Upserted(after, key, given.value);
          }
          return Err("not updated"), after;
        }
        after := Upserted(after, key, given.value);
        wrote := wrote + 1;
      }
      WentOn(content, definitions, values, outcomes, i);
    }
    WentThrough(definitions, values, outcomes);
    if wrote == 0 {
      return Err("no values given"), after;
    }
    if !hardened {
      return Err("not hardened"), after;
    }
    return Ok(wrote), after;
  }

  lemma {:induction false} FormEditsValid(definitions: seq<string>, values: map<string, string>)
    requires forall i :: 0 <= i < |definitions| ==> ValidKey(definitions[i]) && !Rejects(values, definitions[i])
    ensures ValidEdits(FormEdits(definitions, values))
  {
    hide Trim, ValidKey;
    if definitions == [] {
    } else {
      FormEditsValid(definitions[..|definitions| - 1], values);
    }
  }

  lemma LastEditNext(edits: seq<Edit>, edit: Edit, key: string)
    ensures LastEdit(edits + [edit], key) == if edit.key == key then Some(edit.value) else LastEdit(edits, key)
  {
    assert (edits + [edit])[..|edits|] == edits;
  }

  lemma {:induction false} LastFormEdit(definitions: seq<string>, values: map<string, string>, key: string)
    ensures LastEdit(FormEdits(definitions, values), key) == if key in definitions then Given(values, key) else None
  {
    hide Given;
    if definitions == [] {
    } else {
      var n := |definitions| - 1;
      LastFormEdit(definitions[..n], values, key);
      assert definitions == definitions[..n] + [definitions[n]];
      FormEditsNext(definitions, values, n);
      assert definitions[..n + 1] == definitions;
      var edits := FormEdits(definitions[..n], values);
      if Given(values, definitions[n]).Some? {
        LastEditNext(edits, Edit(definitions[n], Given(values, definitions[n]).value), key);
      }
    }
  }

  /**
    After an accepted form each key it gives reads as what shadows it, if anything, and else as its
    trimmed value cleaned; blank and unmentioned keys read as before.
   */
  lemma AcceptedFormIsRead(content: string, definitions: seq<string>, values: map<string, string>, key: string)
    requires forall i :: 0 <= i < |definitions| ==> ValidKey(definitions[i]) && !Rejects(values, definitions[i])
    ensures EnvValue(Edited(content, FormEdits(definitions, values)), key) ==
      match if key in definitions then Given(values, key) else None
      case None => EnvValue(content, key)
      case Some(value) => OrElse(Shadow(content, key), Some(Cleaned(value)))
  {
    hide ValidKey, Rejects, EnvValue, Shadow, Cleaned, Given;
    FormEditsValid(definitions, values);
    EditsReadBack(content, FormEdits(definitions, values), key);
    LastFormEdit(definitions, values, key);
  }

  // ---------------------------------------------------------------------------------------
  // Forms that end early.

  lemma {:induction false} AcceptedParts(definitions: seq<string>, values: map<string, string>, outcomes: Outcomes)
    ensures NoneRejected(Accepted(definitions, values, outcomes), values)
    ensures forall key :: key in Accepted(definitions, values, outcomes) ==> key in definitions
  {
    hide Rejects, Given;
    if definitions == [] || Stops(values, outcomes, definitions[0]) {
    } else {
      AcceptedParts(definitions[1..], values, outcomes);
      assert definitions == [definitions[0]] + definitions[1..];
    }
  }

  /** Writing what the form gives for this key, if anything, leaves the key reading as it does. */
  predicate AlreadyReads(content: string, values: map<string, string>, key: string) {
    match Given(values, key)
    case None => true
    case Some(value) => OrElse(Shadow(content, key), Some(Cleaned(value))) == EnvValue(content, key)
  }

  /**
    A form leaves every key reading as before exactly when that is so of each key whose value reaches the
    file; what comes after the form stopped never matters.
   */
  lemma FormChangesNothingExactlyWhen(
    content: string, definitions: seq<string>, values: map<string, string>, outcomes: Outcomes)
    requires forall i :: 0 <= i < |definitions| ==> ValidKey(definitions[i])
    ensures var accepted := Accepted(definitions, values, outcomes);
      var after := Edited(content, FormEdits(accepted, values));
      (forall key :: EnvValue(after, key) == EnvValue(content, key))
      <==> forall key :: key in accepted ==> AlreadyReads(content, values, key)
  {
    hide ValidKey, Rejects, EnvValue, Shadow, Cleaned, Given, Accepted, FormEdits, Edited;
    AcceptedParts(definitions, values, outcomes);
    var accepted := Accepted(definitions, values, outcomes);
    assert forall i :: 0 <= i < |accepted| ==> accepted[i] in accepted;
    forall key
      ensures EnvValue(Edited(content, FormEdits(accepted, values)), key) == EnvValue(content, key)
        <==> (key in accepted ==> AlreadyReads(content, values, key))
    {
      AcceptedFormIsRead(content, accepted, values, key);
    }
  }

  /** No edit is made exactly when no value is given. */
  lemma {:induction false} NoEditsExactlyWhen(definitions: seq<string>, values: map<string, string>)
    ensures FormEdits(definitions, values) == [] <==> forall key :: key in definitions ==> Given(values, key).None?
  {
    hide Given;
    if definitions == [] {
    } else {
      var init, last := definitions[..|definitions| - 1], definitions[|definitions| - 1];
      NoEditsExactlyWhen(init, values);
      assert definitions == init + [last];
    }
  }

  lemma BareGiven(values: map<string, string>, key: string)
    requires key in values && values[key] != "" && IsBare(values[key])
    ensures Given(values, key) == Some(values[key])
  {
    StripFixed(values[key], IsWhitespace);
    hide Strip, StripStart, StripEnd, IsWhitespace;
  }

  lemma LetterIsBare(value: string)
    requires value != "" && 'a' <= value[0] <= 'z' && 'a' <= value[|value| - 1] <= 'z'
    ensures IsBare(value)
  {}

  lemma BrokenLine()
    ensures IsMultiLine("y\nz") && !IsMultiLine("x")
  {
    assert "y\nz"[1] == '\n';
  }

  lemma EmptyFile(key: string)
    ensures EnvValue("", key) == None && Shadow("", key) == None
  {
    assert Lines("") == [];
    hide Lines, LineValue, Drops;
  }

  lemma LetterKey()
    ensures ValidKey("A")
  {}

  const TWO_KEYS := ["A", "B"]

  function OneBroken(): map<string, string> { map["A" := "x", "B" := "y\nz"] }

  lemma OneBrokenGiven()
    ensures Given(OneBroken(), "A") == Some("x") && Rejects(OneBroken(), "B") && !Rejects(OneBroken(), "A")
  {
    LetterIsBare("x");
    LetterIsBare("y\nz");
    hide IsBare, Given, IsMultiLine;
    BareGiven(OneBroken(), "A");
    BareGiven(OneBroken(), "B");
    BrokenLine();
  }

  lemma OneBrokenSupported()
    ensures AllSupported(TWO_KEYS, OneBroken())
  {}

  lemma OneBrokenAccepted(outcomes: Outcomes)
    requires outcomes("A").Written?
    ensures !NoneStops(TWO_KEYS, OneBroken(), outcomes)
    ensures Accepted(TWO_KEYS, OneBroken(), outcomes) == ["A"]
  {
    hide Given, Rejects, OneBroken, Accepted;
    OneBrokenGiven();
    assert TWO_KEYS[0] == "A" && TWO_KEYS[1] == "B" && TWO_KEYS[..1] == ["A"];
    AcceptedUpTo(TWO_KEYS, OneBroken(), outcomes, 1);
  }

  lemma OneBrokenRead()
    ensures EnvValue(Edited("", FormEdits(["A"], OneBroken())), "A") == OrElse(Shadow("", "A"), Some(Cleaned("x")))
  {
    hide *;
    OneBrokenGiven();
    LetterKey();
    AcceptedFormIsRead("", ["A"], OneBroken(), "A");
  }

  /** For example: two values of which the second is refused. The form fails, and the first has been written. */
  lemma RefusedFormChangesKeys(outcomes: Outcomes)
    requires outcomes("A").Written?
    ensures var after := Edited("", FormEdits(Accepted(TWO_KEYS, OneBroken(), outcomes), OneBroken()));
      && AllSupported(TWO_KEYS, OneBroken()) && !NoneStops(TWO_KEYS, OneBroken(), outcomes)
      && EnvValue("", "A") == None && EnvValue(after, "A") == Some("x")
  {
    hide EnvValue, Edited, FormEdits, Accepted, OneBroken, AllSupported, NoneStops, Shadow, Cleaned, IsBare;
    LetterIsBare("x");
    CleanExactlyWhenBare("x");
    OneBrokenSupported();
    OneBrokenAccepted(outcomes);
    OneBrokenRead();
    EmptyFile("A");
  }

  // ---------------------------------------------------------------------------------------
  // In terms of the form alone.

  /** A value is refused exactly when it holds a line feed or a carriage return that trimming leaves. */
  lemma RejectsExactlyWhen(values: map<string, string>, key: string)
    ensures Rejects(values, key) <==> key in values && ('\n' in Trim(values[key]) || '\r' in Trim(values[key]))
  {
    hide Trim;
  }

  /** The edits are those of the supported keys that are given something but white space,
    each with its value trimmed. */
  lemma {:induction false} EditsExactly(definitions: seq<string>, values: map<string, string>, edit: Edit)
    ensures edit in FormEdits(definitions, values) <==>
      && edit.key in definitions && edit.key in values
      && Trim(values[edit.key]) != "" && edit.value == Trim(values[edit.key])
  {
    hide Trim;
    if definitions == [] {
    } else {
      var init, last := definitions[..|definitions| - 1], definitions[|definitions| - 1];
      EditsExactly(init, values, edit);
      assert definitions == init + [last];
    }
  }
}
