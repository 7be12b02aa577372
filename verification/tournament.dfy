/**
 * The local tournament page: four players, two semifinals, a final.  The
 * page moves through the steps selection → matchups → game → result; the
 * handlers below are the page's state changes, and `Act` is what the page
 * lets a user do at each step (a form submission, a Start Match button on
 * an undecided matchup, a click on one of the two players of the game).
 * The DOM page and the React component implement the same handlers.
 */
module Tournament {
  import opened Maybe
  import PS = PlayersSelection

  /** The page's `step`; `Playing` is the step the source calls "tournament". */
  datatype Step = Selection | Matchups | Playing | Result

  datatype Matchup = Matchup(id: string, player1: string, player2: string, winner: Option<string>)

  datatype Bracket = Bracket(step: Step, winner: Option<string>, matchups: seq<Matchup>, current: Option<Matchup>)

  const FirstSemi := "match-1"
  const SecondSemi := "match-2"
  const FinalId := "final"

  /** The page as first shown. */
  function Initial(): Bracket {
    Bracket(Selection, None, [], None)
  }

  /** `matchup.winner` as a JavaScript condition: present and not the empty string. */
  predicate Decided(m: Matchup) {
    m.winner.Some? && m.winner.value != ""
  }

  /** `matchup.winner || ""`. */
  function WinnerOrEmpty(m: Matchup): string {
    if Decided(m) then m.winner.value else ""
  }

  /** `matchups.every(m => m.winner)`. */
  predicate AllDecided(ms: seq<Matchup>) {
    forall i :: 0 <= i < |ms| ==> Decided(ms[i])
  }

  /** `handleStartTournament(players)`: the two semifinals, first two names against the last two, and the matchups step. */
  function StartTournament(b: Bracket, players: seq<string>): (r: Bracket)
    requires |players| >= 4
    ensures r.step == Matchups && r.winner == b.winner && r.current == b.current
    ensures r.matchups == [Matchup(FirstSemi, players[0], players[1], None), Matchup(SecondSemi, players[2], players[3], None)]
    ensures forall i :: 0 <= i < 4 ==>
      players[i] == (if i % 2 == 0 then r.matchups[i / 2].player1 else r.matchups[i / 2].player2)
  {
    var tournamentMatchups := [
      Matchup(FirstSemi, players[0], players[1], None),
      Matchup(SecondSemi, players[2], players[3], None)
    ];
    b.(matchups := tournamentMatchups, step := Matchups)
  }

  /** `handleStartMatch(matchup)`: play `matchup`; the list of matchups stays. */
  function StartMatch(b: Bracket, m: Matchup): (r: Bracket)
    ensures r.current == Some(m) && r.step == Playing
    ensures r.matchups == b.matchups && r.winner == b.winner
  {
    b.(current := Some(m), step := Playing)
  }

  /** `matchups.map(m => m.id === id ? { ...m, winner } : m)`. */
  function RecordWinner(ms: seq<Matchup>, id: string, w: string): (r: seq<Matchup>)
    ensures |r| == |ms|
    ensures forall i :: 0 <= i < |ms| ==> r[i] == (if ms[i].id == id then ms[i].(winner := Some(w)) else ms[i])
  {
    seq(|ms|, i requires 0 <= i < |ms| => if ms[i].id == id then ms[i].(winner := Some(w)) else ms[i])
  }

  /**
   * `handleMatchWinner` reads the first two matchups once every matchup is
   * decided; with fewer than two it would fail on `undefined`, so callers
   * must not reach that case (no page state does: see `PickKeepsWellFormed`).
   */
  predicate MatchWinnerDefined(b: Bracket, w: string) {
    b.current.None? || |b.matchups| >= 2 || !AllDecided(RecordWinner(b.matchups, b.current.value.id, w))
  }

  /**
   * `handleMatchWinner(w)`: with no current matchup nothing happens.
   * Otherwise every matchup carrying the current id gets winner `w`, the
   * others stay as and where they were, the page goes back to the
   * matchups step, and once every matchup is decided the final between
   * the first two winners is appended.
   */
  function MatchWinner(b: Bracket, w: string): (r: Bracket)
    requires MatchWinnerDefined(b, w)
    ensures b.current.None? ==> r == b
    ensures b.current.Some? ==>
      var id := b.current.value.id;
      && r.current.None? && r.step == Matchups && r.winner == b.winner
      && |b.matchups| <= |r.matchups| <= |b.matchups| + 1
      && (forall i :: 0 <= i < |b.matchups| ==>
            r.matchups[i] == (if b.matchups[i].id == id then b.matchups[i].(winner := Some(w)) else b.matchups[i]))
      && (|r.matchups| == |b.matchups| + 1 <==> AllDecided(r.matchups[..|b.matchups|]))
      && (|r.matchups| == |b.matchups| + 1 ==>
            r.matchups[|b.matchups|] == Matchup(FinalId, WinnerOrEmpty(r.matchups[0]), WinnerOrEmpty(r.matchups[1]), None))
  {
    if b.current.None? then b
    else
      var currentId := b.current.value.id;
      var updated := RecordWinner(b.matchups, currentId, w);
      var b1 := b.(matchups := updated, current := None, step := Matchups);
      if AllDecided(updated) then
        var finalMatchup := Matchup(FinalId, WinnerOrEmpty(updated[0]), WinnerOrEmpty(updated[1]), None);
        assert (updated + [finalMatchup])[..|b.matchups|] == updated;
        b1.(matchups := updated + [finalMatchup])
      else
        assert updated[..|b.matchups|] == updated;
        b1
  }

  /** `handleWinner(w)`: the tournament is over with winner `w`; matchups and current matchup stay. */
  function HandleWinner(b: Bracket, w: string): (r: Bracket)
    ensures r.step == Result && r.winner == Some(w)
    ensures r.matchups == b.matchups && r.current == b.current
  {
    b.(step := Result, winner := Some(w))
  }

  /** The game view's `onWinnerSelect`: the final's winner ends the tournament, any other winner is recorded on its matchup. */
  function SelectWinner(b: Bracket, w: string): (r: Bracket)
    requires b.current.Some? && MatchWinnerDefined(b, w)
    ensures b.current.value.id == FinalId ==>
      && r.step == Result && r.winner == Some(w)
      && r.matchups == b.matchups && r.current == b.current
    ensures b.current.value.id != FinalId ==>
      var id := b.current.value.id;
      && r.step == Matchups && r.current.None? && r.winner == b.winner
      && |b.matchups| <= |r.matchups| <= |b.matchups| + 1
      && (forall i :: 0 <= i < |b.matchups| ==>
            r.matchups[i] == (if b.matchups[i].id == id then b.matchups[i].(winner := Some(w)) else b.matchups[i]))
      && (|r.matchups| > |b.matchups| <==> AllDecided(r.matchups[..|b.matchups|]))
      && (|r.matchups| > |b.matchups| ==>
            r.matchups[|b.matchups|] == Matchup(FinalId, WinnerOrEmpty(r.matchups[0]), WinnerOrEmpty(r.matchups[1]), None))
  {
    if b.current.value.id == FinalId then HandleWinner(b, w) else MatchWinner(b, w)
  }

  /** What a user can do on the page. */
  datatype Action =
    | Submit(form: seq<string>)   // press Start Tournament on the player form
    | Open(m: Matchup)            // press Start Match on a matchup card
    | Pick(w: string)             // click one of the two players of the game

  /** The page offers the action in this state: the form on the selection step, Start Match on undecided matchups, the two players during a game. */
  predicate Enabled(b: Bracket, a: Action) {
    match a
    case Submit(form) => b.step == Selection && |form| == PS.PlayerCount
    case Open(m) => b.step == Matchups && m in b.matchups && !Decided(m)
    case Pick(w) => b.step == Playing && b.current.Some? && (w == b.current.value.player1 || w == b.current.value.player2)
  }

  /** The shape of the bracket once the tournament has started. */
  predicate Bracketed(ms: seq<Matchup>) {
    && (|ms| == 2 || |ms| == 3)
    && ms[0].id == FirstSemi && ms[1].id == SecondSemi
    && ms[0].player1 != "" && ms[0].player2 != "" && ms[1].player1 != "" && ms[1].player2 != ""
    && (forall i :: 0 <= i < 2 && Decided(ms[i]) ==> ms[i].winner.value in {ms[i].player1, ms[i].player2})
    && (forall i :: 0 <= i < 2 && ms[i].winner.Some? ==> Decided(ms[i]))
    && (|ms| == 3 <==> Decided(ms[0]) && Decided(ms[1]))
    && (|ms| == 3 ==> ms[2] == Matchup(FinalId, ms[0].winner.value, ms[1].winner.value, None))
  }

  /** The states the page can be in. */
  predicate WellFormed(b: Bracket) {
    match b.step
    case Selection => b.matchups == [] && b.current.None? && b.winner.None?
    case Matchups => Bracketed(b.matchups) && b.current.None? && b.winner.None?
    case Playing =>
      && Bracketed(b.matchups) && b.winner.None?
      && b.current.Some? && b.current.value in b.matchups && !Decided(b.current.value)
    case Result =>
      && Bracketed(b.matchups) && |b.matchups| == 3
      && b.current == Some(b.matchups[2])
      && b.winner.Some? && b.winner.value in {b.matchups[2].player1, b.matchups[2].player2}
  }

  /** The effect of an enabled action: a rejected form changes nothing; an accepted one starts the tournament. */
  function Act(b: Bracket, a: Action): (r: Bracket)
    requires WellFormed(b) && Enabled(b, a)
    ensures WellFormed(r)
  {
    match a
    case Submit(form) =>
      (match PS.Validate(form)
       case Rejected(_) => b
       case Accepted(names) =>
         StartKeepsWellFormed(b, names);
         StartTournament(b, names))
    case Open(m) =>
      OpenKeepsWellFormed(b, m);
      StartMatch(b, m)
    case Pick(w) =>
      PickKeepsWellFormed(b, w);
      SelectWinner(b, w)
  }

  /** Four non-empty names make two semifinals the page can play. */
  lemma StartKeepsWellFormed(b: Bracket, names: seq<string>)
    requires WellFormed(b) && b.step == Selection
    requires |names| == PS.PlayerCount && forall i :: 0 <= i < |names| ==> names[i] != ""
    ensures WellFormed(StartTournament(b, names))
  {
    var r := StartTournament(b, names);
    assert names[0] != "" && names[1] != "" && names[2] != "" && names[3] != "";
    assert !Decided(r.matchups[0]) && !Decided(r.matchups[1]);
  }

  /** Opening an undecided matchup of a bracket starts a game the page can finish. */
  lemma OpenKeepsWellFormed(b: Bracket, m: Matchup)
    requires WellFormed(b) && Enabled(b, Open(m))
    ensures WellFormed(StartMatch(b, m))
  {
  }

  /** Picking a player of the current game keeps the page well formed; the page never hits the undefined case of `handleMatchWinner`. */
  lemma PickKeepsWellFormed(b: Bracket, w: string)
    requires WellFormed(b) && Enabled(b, Pick(w))
    ensures MatchWinnerDefined(b, w)
    ensures WellFormed(SelectWinner(b, w))
  {
    if b.current.value.id == FinalId {
      assert b.current.value == b.matchups[2];
    } else if b.current.value == b.matchups[0] {
      PickSemifinalKeepsWellFormed(b, w, 0);
    } else {
      PickSemifinalKeepsWellFormed(b, w, 1);
    }
  }

  /** Recording the winner of semifinal `i` keeps the page well formed. */
  lemma PickSemifinalKeepsWellFormed(b: Bracket, w: string, i: nat)
    requires WellFormed(b) && Enabled(b, Pick(w)) && b.current.value.id != FinalId
    requires i < 2 && b.current.value == b.matchups[i]
    ensures MatchWinnerDefined(b, w)
    ensures WellFormed(MatchWinner(b, w))
  {
    var ms := b.matchups;
    var updated := ms[i := ms[i].(winner := Some(w))];
    assert RecordWinner(ms, ms[i].id, w) == updated;
    SemifinalKeepsBracketed(ms, i, w);
  }

  /** A semifinal gaining one of its players as winner keeps the bracket's shape, the final included once both are decided. */
  lemma SemifinalKeepsBracketed(ms: seq<Matchup>, i: nat, w: string)
    requires Bracketed(ms) && |ms| == 2 && i < 2 && !Decided(ms[i])
    requires w == ms[i].player1 || w == ms[i].player2
    ensures var u := ms[i := ms[i].(winner := Some(w))];
      Bracketed(if AllDecided(u) then u + [Matchup(FinalId, WinnerOrEmpty(u[0]), WinnerOrEmpty(u[1]), None)] else u)
  {
    var u := ms[i := ms[i].(winner := Some(w))];
    assert Decided(u[i]) && u[1 - i] == ms[1 - i];
  }

  /** A session on the page: the actions in order, or `None` once one is not offered. */
  function Run(b: Bracket, acts: seq<Action>): (r: Option<Bracket>)
    requires WellFormed(b)
    ensures r.Some? ==> WellFormed(r.value)
    decreases |acts|
  {
    if acts == [] then Some(b)
    else if !Enabled(b, acts[0]) then None
    else Run(Act(b, acts[0]), acts[1..])
  }

  /** Whatever the session, a finished tournament's champion won the final, and the final was played by the two semifinal winners. */
  lemma ChampionWonEveryRound(acts: seq<Action>)
    requires Run(Initial(), acts).Some? && Run(Initial(), acts).value.step == Result
    ensures var r := Run(Initial(), acts).value;
      && |r.matchups| == 3
      && r.matchups[0].winner.Some? && r.matchups[0].winner.value in {r.matchups[0].player1, r.matchups[0].player2}
      && r.matchups[1].winner.Some? && r.matchups[1].winner.value in {r.matchups[1].player1, r.matchups[1].player2}
      && r.matchups[2].player1 == r.matchups[0].winner.value
      && r.matchups[2].player2 == r.matchups[1].winner.value
      && r.winner.Some? && r.winner.value in {r.matchups[2].player1, r.matchups[2].player2}
  {
    var r := Run(Initial(), acts).value;
    assert WellFormed(r);
    assert Bracketed(r.matchups) && |r.matchups| == 3;
    assert Decided(r.matchups[0]) && Decided(r.matchups[1]);
  }

  /** One action at the head of a session. */
  lemma RunStep(b: Bracket, a: Action, rest: seq<Action>)
    requires WellFormed(b) && Enabled(b, a)
    ensures Run(b, [a] + rest) == Run(Act(b, a), rest)
  {
    assert ([a] + rest)[1..] == rest;
  }

  /** Playing a semifinal while the other is undecided records its winner and nothing else. */
  lemma SemifinalWon(b: Bracket, i: nat, x: string)
    requires WellFormed(b) && b.step == Matchups && |b.matchups| == 2 && i < 2
    requires !Decided(b.matchups[0]) && !Decided(b.matchups[1])
    requires x == b.matchups[i].player1 || x == b.matchups[i].player2
    ensures Enabled(b, Open(b.matchups[i]))
    ensures Enabled(Act(b, Open(b.matchups[i])), Pick(x))
    ensures Act(Act(b, Open(b.matchups[i])), Pick(x)) == b.(matchups := b.matchups[i := b.matchups[i].(winner := Some(x))])
  {
    var m := b.matchups[i];
    var b2 := StartMatch(b, m);
    assert Act(b, Open(m)) == b2;
    assert m.id != FinalId;
    PickKeepsWellFormed(b2, x);
    assert Act(b2, Pick(x)) == MatchWinner(b2, x);
    var r := MatchWinner(b2, x);
    assert !AllDecided(r.matchups[..2]) by {
      assert r.matchups[1 - i] == b.matchups[1 - i];
    }
    assert r.matchups[..2] == r.matchups;
  }

  /** Playing the second semifinal once the first is decided schedules the final. */
  lemma LastSemifinalWon(b: Bracket, x: string)
    requires WellFormed(b) && b.step == Matchups && |b.matchups| == 2
    requires Decided(b.matchups[0]) && !Decided(b.matchups[1])
    requires x == b.matchups[1].player1 || x == b.matchups[1].player2
    ensures Enabled(b, Open(b.matchups[1]))
    ensures Enabled(Act(b, Open(b.matchups[1])), Pick(x))
    ensures Act(Act(b, Open(b.matchups[1])), Pick(x)) ==
      b.(matchups := [b.matchups[0], b.matchups[1].(winner := Some(x)), Matchup(FinalId, b.matchups[0].winner.value, x, None)])
  {
    var b2 := Act(b, Open(b.matchups[1]));
    var r := MatchWinner(b2, x);
    assert r.matchups[..2] == [b.matchups[0], b.matchups[1].(winner := Some(x))];
  }

  /** Playing the final ends the tournament. */
  lemma FinalWon(b: Bracket, x: string)
    requires WellFormed(b) && b.step == Matchups && |b.matchups| == 3
    requires x == b.matchups[2].player1 || x == b.matchups[2].player2
    ensures Enabled(b, Open(b.matchups[2]))
    ensures Enabled(Act(b, Open(b.matchups[2])), Pick(x))
    ensures Act(Act(b, Open(b.matchups[2])), Pick(x)) == Bracket(Result, Some(x), b.matchups, Some(b.matchups[2]))
  {
  }

  /** An accepted form starts the tournament with the two semifinals, in the order the names were entered. */
  lemma SubmitAccepted(form: seq<string>, n: seq<string>, rest: seq<Action>)
    requires |form| == PS.PlayerCount && PS.Validate(form) == PS.Accepted(n)
    ensures |n| == 4 && forall i :: 0 <= i < 4 ==> n[i] != ""
    ensures WellFormed(StartTournament(Initial(), n))
    ensures Run(Initial(), [Submit(form)] + rest) == Run(StartTournament(Initial(), n), rest)
  {
    StartKeepsWellFormed(Initial(), n);
    RunStep(Initial(), Submit(form), rest);
  }

  /** The two semifinals of a fresh bracket, `a` and `c` winning, followed by any further actions. */
  lemma PlaySemifinals(n: seq<string>, a: string, c: string, rest: seq<Action>)
    requires |n| == 4 && forall i :: 0 <= i < 4 ==> n[i] != ""
    requires (a == n[0] || a == n[1]) && (c == n[2] || c == n[3])
    ensures var semi1 := Matchup(FirstSemi, n[0], n[1], None);
      var semi2 := Matchup(SecondSemi, n[2], n[3], None);
      var b1 := Bracket(Matchups, None, [semi1, semi2], None);
      var b5 := Bracket(Matchups, None, [semi1.(winner := Some(a)), semi2.(winner := Some(c)), Matchup(FinalId, a, c, None)], None);
      WellFormed(b1) && WellFormed(b5) &&
      Run(b1, [Open(semi1), Pick(a), Open(semi2), Pick(c)] + rest) == Run(b5, rest)
  {
    var semi1 := Matchup(FirstSemi, n[0], n[1], None);
    var semi2 := Matchup(SecondSemi, n[2], n[3], None);
    var b1 := Bracket(Matchups, None, [semi1, semi2], None);
    var b3 := Bracket(Matchups, None, [semi1.(winner := Some(a)), semi2], None);
    var b5 := Bracket(Matchups, None, [semi1.(winner := Some(a)), semi2.(winner := Some(c)), Matchup(FinalId, a, c, None)], None);
    var tail := [Open(semi2), Pick(c)] + rest;
    assert WellFormed(b1) && WellFormed(b3) && WellFormed(b5) by {
      assert n[0] != "" && n[1] != "" && n[2] != "" && n[3] != "";
    }
    assert Run(b1, [Open(semi1), Pick(a)] + tail) == Run(b3, tail) by {
      FirstSemifinalPlayed(b1, a, tail);
      assert b1.matchups[0 := semi1.(winner := Some(a))] == b3.matchups;
    }
    assert Run(b3, tail) == Run(b5, rest) by {
      SecondSemifinalPlayed(b3, c, rest);
      assert b3.matchups[0].winner.value == a;
    }
    assert [Open(semi1), Pick(a)] + tail == [Open(semi1), Pick(a), Open(semi2), Pick(c)] + rest;
  }

  /** A session that opens with the first semifinal of a fresh bracket, won by `a`. */
  lemma FirstSemifinalPlayed(b: Bracket, a: string, rest: seq<Action>)
    requires WellFormed(b) && b.step == Matchups && |b.matchups| == 2
    requires !Decided(b.matchups[0]) && !Decided(b.matchups[1])
    requires a == b.matchups[0].player1 || a == b.matchups[0].player2
    ensures Run(b, [Open(b.matchups[0]), Pick(a)] + rest) ==
      Run(b.(matchups := b.matchups[0 := b.matchups[0].(winner := Some(a))]), rest)
  {
    SemifinalWon(b, 0, a);
    var b1 := Act(b, Open(b.matchups[0]));
    TwoSteps(b, Open(b.matchups[0]), b1, Pick(a), Act(b1, Pick(a)), rest);
  }

  /** A session that goes on with the second semifinal, won by `c`, once the first is decided. */
  lemma SecondSemifinalPlayed(b: Bracket, c: string, rest: seq<Action>)
    requires WellFormed(b) && b.step == Matchups && |b.matchups| == 2
    requires Decided(b.matchups[0]) && !Decided(b.matchups[1])
    requires c == b.matchups[1].player1 || c == b.matchups[1].player2
    ensures Run(b, [Open(b.matchups[1]), Pick(c)] + rest) ==
      Run(b.(matchups := [b.matchups[0], b.matchups[1].(winner := Some(c)), Matchup(FinalId, b.matchups[0].winner.value, c, None)]), rest)
  {
    LastSemifinalWon(b, c);
    var b1 := Act(b, Open(b.matchups[1]));
    TwoSteps(b, Open(b.matchups[1]), b1, Pick(c), Act(b1, Pick(c)), rest);
  }

  /** Two actions at the head of a session, through the states they lead to. */
  lemma TwoSteps(b: Bracket, x: Action, b1: Bracket, y: Action, b2: Bracket, rest: seq<Action>)
    requires WellFormed(b) && Enabled(b, x) && Act(b, x) == b1
    requires WellFormed(b1) && Enabled(b1, y) && Act(b1, y) == b2
    ensures Run(b, [x, y] + rest) == Run(b2, rest)
  {
    var tail := [y] + rest;
    assert [x] + tail == [x, y] + rest;
    RunStep(b, x, tail);
    RunStep(b1, y, rest);
  }

  /** The final played to the end. */
  lemma PlayFinal(b: Bracket, x: string)
    requires WellFormed(b) && b.step == Matchups && |b.matchups| == 3
    requires x == b.matchups[2].player1 || x == b.matchups[2].player2
    ensures Run(b, [Open(b.matchups[2]), Pick(x)]) == Some(Bracket(Result, Some(x), b.matchups, Some(b.matchups[2])))
  {
    FinalWon(b, x);
    RunStep(Act(b, Open(b.matchups[2])), Pick(x), []);
    RunStep(b, Open(b.matchups[2]), [Pick(x)]);
    assert [Open(b.matchups[2])] + [Pick(x)] == [Open(b.matchups[2]), Pick(x)];
  }

  /**
   * The whole page flow: an accepted form, the first semifinal won by `a`,
   * the second by `c`, the final by `w`, ends on the result step with `w`
   * as champion, the two decided semifinals and the final, whose winner
   * `handleWinner` never writes into the matchups.
   */
  lemma PlayThrough(form: seq<string>, n: seq<string>, a: string, c: string, w: string)
    requires |form| == PS.PlayerCount && PS.Validate(form) == PS.Accepted(n)
    requires (a == n[0] || a == n[1]) && (c == n[2] || c == n[3])
    requires w == a || w == c
    ensures var semi1 := Matchup(FirstSemi, n[0], n[1], None);
      var semi2 := Matchup(SecondSemi, n[2], n[3], None);
      var final := Matchup(FinalId, a, c, None);
      Run(Initial(), [Submit(form)] + ([Open(semi1), Pick(a), Open(semi2), Pick(c)] + [Open(final), Pick(w)]))
        == Some(Bracket(Result, Some(w), [semi1.(winner := Some(a)), semi2.(winner := Some(c)), final], Some(final)))
  {
    var semi1 := Matchup(FirstSemi, n[0], n[1], None);
    var semi2 := Matchup(SecondSemi, n[2], n[3], None);
    var final := Matchup(FinalId, a, c, None);
    var last := [Open(final), Pick(w)];
    var semis := [Open(semi1), Pick(a), Open(semi2), Pick(c)];
    var b5 := Bracket(Matchups, None, [semi1.(winner := Some(a)), semi2.(winner := Some(c)), final], None);
    var done := Bracket(Result, Some(w), b5.matchups, Some(final));
    SubmitAccepted(form, n, semis + last);
    PlaySemifinals(n, a, c, last);
    PlayFinal(b5, w);
  }
}
