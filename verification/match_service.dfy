/**
 * One match as `MatchService` keeps it: an ordered player list, the
 * moment it was initialised (here only whether it was: `init != null`) and
 * the declared winner.
 */
module MatchService {
  import opened Maybe
  import opened Sequences
  import opened Protocol

  datatype MatchRec = MatchRec(matchId: string, players: seq<Player>, started: bool, winner: Option<string>)

  /** `new MatchService(matchId)`: no players, not initialised, no winner. */
  function NewMatch(matchId: string): (m: MatchRec)
    ensures m.matchId == matchId && |m.players| == 0
    ensures !m.started && m.winner.None?
  {
    MatchRec(matchId, [], false, None)
  }

  /** `addPlayer(p)`: `p` goes after every player already there. */
  function AddPlayer(m: MatchRec, p: Player): (r: MatchRec)
    ensures |r.players| == |m.players| + 1
    ensures r.players[..|m.players|] == m.players && r.players[|m.players|] == p
    ensures r.matchId == m.matchId && r.started == m.started && r.winner == m.winner
  {
    m.(players := m.players + [p])
  }

  /** How many players in `ps` are called `name`. */
  function CountName(ps: seq<Player>, name: string): nat {
    if ps == [] then 0 else (if ps[0].name == name then 1 else 0) + CountName(ps[1..], name)
  }

  /** `players.filter(p => p.name !== name)`. */
  function WithoutName(ps: seq<Player>, name: string): (r: seq<Player>)
    ensures forall p :: p in r ==> p in ps && p.name != name
    ensures forall p :: p in ps && p.name != name ==> p in r
    ensures |r| + CountName(ps, name) == |ps|
  {
    if ps == [] then []
    else
      var rest := WithoutName(ps[1..], name);
      assert forall p :: p in ps <==> p == ps[0] || p in ps[1..];
      if ps[0].name == name then rest else [ps[0]] + rest
  }

  /** The filter keeps the relative order of the players it keeps. */
  lemma {:induction false} WithoutNameKeepsOrder(ps: seq<Player>, name: string)
    ensures IsSubsequence(WithoutName(ps, name), ps)
  {
    if ps != [] {
      WithoutNameKeepsOrder(ps[1..], name);
      var rest := WithoutName(ps[1..], name);
      if ps[0].name != name {
        assert ([ps[0]] + rest)[1..] == rest;
      }
    }
  }

  /** Filtering out a name nobody has is the identity. */
  lemma {:induction false} WithoutAbsentName(ps: seq<Player>, name: string)
    requires !HasName(ps, name)
    ensures WithoutName(ps, name) == ps
  {
    if ps != [] {
      WithoutAbsentName(ps[1..], name);
      assert ps == [ps[0]] + ps[1..];
    }
  }

  /**
   * `removePlayer(name)`: `false` and no change when nobody has that name;
   * otherwise `true`, and every player with that name is gone while the
   * others stay.
   */
  function RemovePlayer(m: MatchRec, name: string): (r: (MatchRec, bool))
    ensures r.1 <==> HasName(m.players, name)
    ensures !r.1 ==> r.0 == m
    ensures r.1 ==> !HasName(r.0.players, name) && |r.0.players| < |m.players|
    ensures r.1 ==> |r.0.players| + CountName(m.players, name) == |m.players|
    ensures forall p :: p in m.players && p.name != name ==> p in r.0.players
    ensures forall p :: p in r.0.players ==> p in m.players
    ensures r.0.matchId == m.matchId && r.0.started == m.started && r.0.winner == m.winner
  {
    if !HasName(m.players, name) then (m, false)
    else
      CountNamePositive(m.players, name);
      (m.(players := WithoutName(m.players, name)), true)
  }

  lemma {:induction false} CountNamePositive(ps: seq<Player>, name: string)
    requires HasName(ps, name)
    ensures CountName(ps, name) > 0
  {
    if ps[0].name != name {
      var i :| 0 <= i < |ps| && ps[i].name == name;
      assert ps[1..][i - 1].name == name;
      CountNamePositive(ps[1..], name);
    }
  }

  /** The players `RemovePlayer` keeps are in their original relative order. */
  lemma RemovePlayerKeepsOrder(m: MatchRec, name: string)
    ensures IsSubsequence(RemovePlayer(m, name).0.players, m.players)
  {
    if HasName(m.players, name) {
      WithoutNameKeepsOrder(m.players, name);
    } else {
      SubsequenceReflexive(m.players);
    }
  }

  /** Adding a player under a fresh name and then removing that name gives the match back. */
  lemma AddRemoveRoundTrip(m: MatchRec, p: Player)
    requires !HasName(m.players, p.name)
    ensures RemovePlayer(AddPlayer(m, p), p.name) == (m, true)
  {
    var ps := m.players + [p];
    assert ps[|m.players|].name == p.name;
    assert HasName(ps, p.name);
    WithoutAbsentName(m.players, p.name);
    WithoutNameAppend(m.players, p, p.name);
    assert WithoutName([p], p.name) == [];
    assert WithoutName(ps, p.name) == m.players;
  }

  lemma {:induction false} WithoutNameAppend(ps: seq<Player>, p: Player, name: string)
    ensures WithoutName(ps + [p], name) == WithoutName(ps, name) + WithoutName([p], name)
  {
    if ps == [] {
      assert ps + [p] == [p];
    } else {
      assert (ps + [p])[1..] == ps[1..] + [p];
      WithoutNameAppend(ps[1..], p, name);
    }
  }

  /** `initMatch()`: the match is marked initialised; players and winner stay. */
  function InitMatch(m: MatchRec): (r: MatchRec)
    ensures r.started
    ensures r.matchId == m.matchId && r.players == m.players && r.winner == m.winner
  {
    m.(started := true)
  }

  /**
   * `endMatch(w)`: every current player is sent one `winner` frame naming
   * `w`, in list order, and `w` becomes the winner.  There is no guard, so
   * ending twice sends twice and the last name wins.
   */
  function EndMatch(m: MatchRec, winnerName: string): (r: (MatchRec, seq<Frame>))
    ensures r.0.winner == Some(winnerName)
    ensures r.0.matchId == m.matchId && r.0.players == m.players && r.0.started == m.started
    ensures |r.1| == |m.players|
    ensures forall i :: 0 <= i < |m.players| ==> r.1[i] == Send(m.players[i].conn, Winner(winnerName))
  {
    (m.(winner := Some(winnerName)), Broadcast(m.players, Winner(winnerName)))
  }

  /** A second `endMatch` is not a no-op: it broadcasts again and overwrites the winner. */
  lemma EndMatchTwice(m: MatchRec, w1: string, w2: string)
    ensures var (m1, out1) := EndMatch(m, w1);
      var (m2, out2) := EndMatch(m1, w2);
      && m2.winner == Some(w2)
      && |out1 + out2| == 2 * |m.players|
      && forall i :: 0 <= i < |m.players| ==> out2[i] == Send(m.players[i].conn, Winner(w2))
  {
  }
}
