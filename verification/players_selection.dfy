/**
 * The tournament's player form: four text inputs edited one index at a
 * time, and the Start-Tournament check that hands the names on only when
 * all four are filled in and no two are the same after trimming.
 */
module PlayersSelection {
  import opened Text
  import opened Sequences

  const PlayerCount := 4

  datatype Alert =
    | FillAll      // "Please fill in all 4 player names"
    | NotUnique    // "Player names must be unique. Please check for duplicates."

  /** What pressing Start Tournament does: call `onStartTournament(names)` or show an alert. */
  datatype Verdict = Accepted(names: seq<string>) | Rejected(alert: Alert)

  /** The form as it is first shown: four empty inputs. */
  function InitialPlayers(): seq<string> {
    ["", "", "", ""]
  }

  /** `onChange` of input `i` (`handlePlayerChange(i, value)`): only entry `i` changes. */
  function SetPlayer(players: seq<string>, i: nat, value: string): (r: seq<string>)
    requires i < |players|
    ensures |r| == |players| && r[i] == value
    ensures forall j :: 0 <= j < |players| && j != i ==> r[j] == players[j]
  {
    players[i := value]
  }

  predicate Blank(s: string) {
    Trim(s) == ""
  }

  predicate Filled(s: string) {
    !Blank(s)
  }

  /** `players.filter(p => p.trim() !== "")`. */
  function NonBlank(players: seq<string>): (r: seq<string>)
    ensures |r| <= |players|
    ensures forall s :: s in r ==> s in players && !Blank(s)
    ensures |r| == |players| <==> forall i :: 0 <= i < |players| ==> !Blank(players[i])
    ensures |r| == |players| ==> r == players
  {
    Filter(players, Filled)
  }

  /** `names.map(p => p.trim())`. */
  function TrimAll(names: seq<string>): (r: seq<string>)
    ensures |r| == |names|
    ensures forall i :: 0 <= i < |names| ==> r[i] == Trim(names[i])
  {
    seq(|names|, i requires 0 <= i < |names| => Trim(names[i]))
  }

  /**
   * The Start-Tournament handler.  Blank entries are counted first; only
   * with four non-blank entries are the trimmed names compared, through
   * the size of the set they make.  Whatever it accepts is four distinct,
   * non-empty, already trimmed names.
   */
  function Validate(players: seq<string>): (v: Verdict)
    ensures v.Accepted? ==> |v.names| == PlayerCount && Distinct(v.names)
    ensures v.Accepted? ==> forall i :: 0 <= i < |v.names| ==> v.names[i] != "" && Trim(v.names[i]) == v.names[i]
  {
    var valid := NonBlank(players);
    if |valid| != PlayerCount then Rejected(FillAll)
    else
      var trimmed := TrimAll(valid);
      ElementsSizeIffDistinct(trimmed);
      TrimmedNames(valid);
      if |Elements(trimmed)| != |trimmed| then Rejected(NotUnique)
      else Accepted(trimmed)
  }

  /** Trimming non-blank names gives non-empty names that trimming leaves alone. */
  lemma TrimmedNames(valid: seq<string>)
    requires forall s :: s in valid ==> !Blank(s)
    ensures forall i :: 0 <= i < |valid| ==> TrimAll(valid)[i] != "" && Trim(TrimAll(valid)[i]) == TrimAll(valid)[i]
  {
    forall i | 0 <= i < |valid|
      ensures TrimAll(valid)[i] != "" && Trim(TrimAll(valid)[i]) == TrimAll(valid)[i]
    {
      var t := TrimAll(valid);
      assert valid[i] in valid;
      assert t[i] == Trim(valid[i]);
      TrimIdempotent(valid[i]);
    }
  }

  /**
   * On the four-input form: an incomplete form is reported as such;
   * otherwise the names are accepted exactly when they are pairwise
   * different after trimming, and are handed on trimmed, in input order.
   */
  lemma ValidateFourInputs(players: seq<string>)
    requires |players| == PlayerCount
    ensures Validate(players) == Rejected(FillAll) <==> exists i :: 0 <= i < |players| && Blank(players[i])
    ensures Validate(players).Accepted? <==>
      && (forall i :: 0 <= i < |players| ==> !Blank(players[i]))
      && (forall i, j :: 0 <= i < j < |players| ==> Trim(players[i]) != Trim(players[j]))
    ensures Validate(players).Accepted? ==>
      forall i :: 0 <= i < |players| ==> Validate(players).names[i] == Trim(players[i])
  {
    if exists i :: 0 <= i < |players| && Blank(players[i]) {
      ValidateIncomplete(players);
    } else {
      ValidateComplete(players);
      TrimAllDistinct(players);
    }
  }

  lemma ValidateIncomplete(players: seq<string>)
    requires |players| == PlayerCount
    requires exists i :: 0 <= i < |players| && Blank(players[i])
    ensures Validate(players) == Rejected(FillAll)
  {
    assert |NonBlank(players)| != PlayerCount;
  }

  lemma ValidateComplete(players: seq<string>)
    requires |players| == PlayerCount
    requires forall i :: 0 <= i < |players| ==> !Blank(players[i])
    ensures Validate(players) == if Distinct(TrimAll(players)) then Accepted(TrimAll(players)) else Rejected(NotUnique)
  {
    assert NonBlank(players) == players;
    ElementsSizeIffDistinct(TrimAll(players));
  }

  lemma TrimAllDistinct(players: seq<string>)
    ensures Distinct(TrimAll(players)) <==> forall i, j :: 0 <= i < j < |players| ==> Trim(players[i]) != Trim(players[j])
  {
  }

  /** Pressing Start Tournament on the untouched form is rejected as incomplete. */
  lemma InitialRejected()
    ensures Validate(InitialPlayers()) == Rejected(FillAll)
  {
    assert Blank(InitialPlayers()[0]);
    ValidateFourInputs(InitialPlayers());
  }

  /** A filled-in form where one entry is another with a leading space ("Bob" and " Bob") is rejected as a duplicate. */
  lemma PaddedDuplicateRejected(players: seq<string>, i: nat, j: nat)
    requires |players| == PlayerCount && forall k :: 0 <= k < |players| ==> !Blank(players[k])
    requires i < PlayerCount && j < PlayerCount && players[j] == [' '] + players[i]
    ensures Validate(players) == Rejected(NotUnique)
  {
    TrimLeadingWhitespace(' ', players[i]);
    ValidateFourInputs(players);
    if i < j {
      assert Trim(players[i]) == Trim(players[j]);
    } else {
      assert Trim(players[j]) == Trim(players[i]);
    }
  }

  /** Two blank entries report the missing names, not a duplicate: the blank check comes first. */
  lemma BlankCheckFirst(players: seq<string>, i: nat, j: nat)
    requires |players| == PlayerCount && i < j < PlayerCount
    requires Blank(players[i]) && Blank(players[j])
    ensures Validate(players) == Rejected(FillAll)
  {
    ValidateFourInputs(players);
  }

  /** Editing any input of the form keeps it at four entries and leaves the others as they were. */
  lemma EditsKeepFourInputs(edits: seq<(nat, string)>)
    requires forall k :: 0 <= k < |edits| ==> edits[k].0 < PlayerCount
    ensures |ApplyEdits(InitialPlayers(), edits)| == PlayerCount
  {
    EditsKeepLength(InitialPlayers(), edits);
  }

  /** The form after a sequence of `(index, value)` edits. */
  function ApplyEdits(players: seq<string>, edits: seq<(nat, string)>): seq<string>
    requires forall k :: 0 <= k < |edits| ==> edits[k].0 < |players|
    decreases |edits|
  {
    if edits == [] then players
    else ApplyEdits(SetPlayer(players, edits[0].0, edits[0].1), edits[1..])
  }

  lemma {:induction false} EditsKeepLength(players: seq<string>, edits: seq<(nat, string)>)
    requires forall k :: 0 <= k < |edits| ==> edits[k].0 < |players|
    ensures |ApplyEdits(players, edits)| == |players|
    decreases |edits|
  {
    if edits != [] {
      EditsKeepLength(SetPlayer(players, edits[0].0, edits[0].1), edits[1..]);
    }
  }
}
