/** Concurrent `.env` editors: the line editor run through the atomic file update. */
module PrivateEnvFile {
  import opened Wrappers
  import opened EnvFile
  import opened PrivateFile

  /** This call rewrites the file the way `upsert_env_value` and `persist_env_value` do. */
  ghost predicate Performs(call: Call, edit: Edit) {
    forall text :: call.update(text) == Ok(Upserted(text, edit.key, edit.value))
  }

  ghost function EditsOf(edits: seq<Edit>, log: seq<nat>): (r: seq<Edit>)
    requires forall i :: 0 <= i < |log| ==> log[i] < |edits|
    ensures |r| == |log|
    ensures forall i :: 0 <= i < |log| ==> r[i] == edits[log[i]]
  {
    seq(|log|, i requires 0 <= i < |log| => edits[log[i]])
  }

  lemma {:induction false} FoldedIsEdited(initial: Option<string>, calls: seq<Call>, log: seq<nat>, edits: seq<Edit>)
    requires |edits| == |calls| && forall c :: 0 <= c < |calls| ==> Performs(calls[c], edits[c])
    requires forall i :: 0 <= i < |log| ==> log[i] < |calls|
    ensures Content(Folded(initial, calls, log)) == Edited(Content(initial), EditsOf(edits, log))
  {
    hide Upserted;
    if log == [] {
    } else {
      var init := log[..|log| - 1];
      FoldedIsEdited(initial, calls, init, edits);
      assert EditsOf(edits, log)[..|log| - 1] == EditsOf(edits, init);
      assert Performs(calls[log[|log| - 1]], edits[log[|log| - 1]]);
    }
  }

  /**
    However the editors interleave, fail or die, every key with a committed edit reads as what shadowed
    it at the start, if anything, and else as the value of the last such edit cleaned; a key no committed
    edit touches reads as it did at the start.
   */
  lemma ConcurrentEditsReadBack(initial: Option<string>, events: seq<Event>, edits: seq<Edit>, key: string)
    requires IsRun(Start(initial), events)
    requires ValidEdits(edits)
    requires var s := Final(Start(initial), events);
      |edits| == |s.calls| && forall c :: 0 <= c < |s.calls| ==> Performs(s.calls[c], edits[c])
    ensures var s := Final(Start(initial), events);
      && (forall i :: 0 <= i < |s.committed| ==> s.committed[i] < |edits|)
      && EnvValue(Content(s.target), key) ==
           match LastEdit(EditsOf(edits, s.committed), key)
           case None => EnvValue(Content(initial), key)
           case Some(value) => OrElse(Shadow(Content(initial), key), Some(Cleaned(value)))
  {
    hide Upserted, Cleaned, Shadow, EnvValue, Performs, IsRun, Final;
    var s := Final(Start(initial), events);
    TargetIsFoldOfCommits(initial, events);
    FoldedIsEdited(initial, s.calls, s.committed, edits);
    EditsReadBack(Content(initial), EditsOf(edits, s.committed), key);
  }

  lemma {:induction false} LastEditOfOne(edits: seq<Edit>, log: seq<nat>, c: nat)
    requires forall i :: 0 <= i < |log| ==> log[i] < |edits|
    requires c < |edits| && c in log
    requires forall d :: 0 <= d < |edits| && edits[d].key == edits[c].key ==> d == c
    ensures LastEdit(EditsOf(edits, log), edits[c].key) == Some(edits[c].value)
  {
    var n := |log| - 1;
    assert EditsOf(edits, log)[..n] == EditsOf(edits, log[..n]);
    if log[n] == c {
    } else {
      LastEditOfOne(edits, log[..n], c);
    }
  }

  /** Editors of different keys never lose each other's work: what a successful call wrote is read back. */
  lemma SuccessfulEditIsRead(initial: Option<string>, events: seq<Event>, edits: seq<Edit>, c: nat)
    requires IsRun(Start(initial), events)
    requires ValidEdits(edits)
    requires var s := Final(Start(initial), events);
      |edits| == |s.calls| && (forall d :: 0 <= d < |s.calls| ==> Performs(s.calls[d], edits[d]))
      && c < |s.calls| && s.calls[c].phase == Returned(true)
    requires forall d :: 0 <= d < |edits| && edits[d].key == edits[c].key ==> d == c
    requires Shadow(Content(initial), edits[c].key).None?
    ensures EnvValue(Content(Final(Start(initial), events).target), edits[c].key) == Some(Cleaned(edits[c].value))
  {
    hide Upserted, Cleaned, Shadow, EnvValue, Performs, IsRun, Final;
    ConcurrentEditsReadBack(initial, events, edits, edits[c].key);
    TargetIsFoldOfCommits(initial, events);
    LastEditOfOne(edits, Final(Start(initial), events).committed, c);
  }
}
