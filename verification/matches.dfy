/**
 * `MatchesService`, the older registry that the `/match` socket route
 * uses.  A match is a plain record.  Its `init` timestamp is set when the
 * match is created and set again by `initMatch`; the model keeps only how
 * many times `initMatch` has stamped it (`initCount`).  A join goes to the
 * first match, in insertion order, with fewer than two players, whether or
 * not it has ended.
 */
module Matches {
  import opened Maybe
  import opened Protocol
  import opened Sequences
  import opened OrderedMap

  datatype Match = Match(players: seq<Player>, initCount: nat, winner: Option<string>)

  type Registry = Table<Match>

  predicate HasRoom(m: Match) {
    |m.players| < 2
  }

  /** The players stored under `id`, or none for an unknown id. */
  function PlayersAt(reg: Registry, id: string): seq<Player> {
    match Get(reg, id)
    case Some(m) => m.players
    case None => []
  }

  /** The private `initMatch(matchId)`: re-stamp the match; an unknown id changes nothing. */
  function InitMatch(reg: Registry, matchId: string): (r: Registry)
    ensures Get(reg, matchId).None? ==> r == reg
    ensures Get(reg, matchId).Some? ==>
      var m := Get(reg, matchId).value;
      Get(r, matchId) == Some(m.(initCount := m.initCount + 1))
    ensures forall k :: k != matchId ==> Get(r, k) == Get(reg, k)
    ensures UniqueKeys(reg) ==> UniqueKeys(r)
    ensures Keys(r) == Keys(reg)
  {
    match Get(reg, matchId)
    case None => reg
    case Some(m) =>
      SetKeys(reg, matchId, m.(initCount := m.initCount + 1));
      Set(reg, matchId, m.(initCount := m.initCount + 1))
  }

  /**
   * `addPlayer(playerName, conn)`: the player is appended to the chosen
   * match under its id, and `initMatch` runs exactly when that makes two
   * players.  The lookup after the insertion cannot miss, so the `null`
   * result never occurs.
   */
  function AddPlayer(reg: Registry, playerName: string, conn: Conn, newId: string): (r: (Registry, Option<string>))
    requires UniqueKeys(reg) && Get(reg, newId).None?
    ensures r.1.Some?
    ensures var id := r.1.value;
      && Get(r.0, id).Some?
      && Get(r.0, id).value.players == PlayersAt(reg, id) + [Player(playerName, id, conn)]
      && (Get(reg, id).None? ==> id == newId && Get(r.0, id).value.winner.None?)
      && (Get(reg, id).Some? ==> HasRoom(Get(reg, id).value) && Get(r.0, id).value.winner == Get(reg, id).value.winner)
      && var before := if Get(reg, id).Some? then Get(reg, id).value.initCount else 0;
         Get(r.0, id).value.initCount == before + (if |Get(r.0, id).value.players| == 2 then 1 else 0)
    ensures forall k :: k != r.1.value ==> Get(r.0, k) == Get(reg, k)
    ensures UniqueKeys(r.0)
    ensures Keys(r.0) == if Get(reg, r.1.value).Some? then Keys(reg) else Keys(reg) + [r.1.value]
  {
    var found := FirstWhere(reg, HasRoom);
    var id := if found.Some? then reg[found.value].key else newId;
    var reg1 := if found.Some? then reg else Set(reg, newId, Match([], 0, None));
    FirstKeyIndex(reg, found);
    SetKeys(reg, newId, Match([], 0, None));
    match Get(reg1, id)
    case None => (reg1, None)
    case Some(m) =>
      var m1 := m.(players := m.players + [Player(playerName, id, conn)]);
      var reg2 := Set(reg1, id, m1);
      SetKeys(reg1, id, m1);
      var reg3 := if |m1.players| == 2 then InitMatch(reg2, id) else reg2;
      (reg3, Some(id))
  }

  /** A join goes to the first match in insertion order with fewer than two players; with none, a new match is appended. */
  lemma JoinsFirstWithRoom(reg: Registry, playerName: string, conn: Conn, newId: string)
    requires UniqueKeys(reg) && Get(reg, newId).None?
    ensures var r := AddPlayer(reg, playerName, conn, newId);
      && (forall i :: 0 <= i < |reg| && HasRoom(reg[i].value) && (forall j :: 0 <= j < i ==> !HasRoom(reg[j].value)) ==>
            r.1 == Some(reg[i].key) && |r.0| == |reg|)
      && ((forall i :: 0 <= i < |reg| ==> !HasRoom(reg[i].value)) ==>
            r.1 == Some(newId) && r.0[..|reg|] == reg && |r.0| == |reg| + 1)
  {
    var found := FirstWhere(reg, HasRoom);
    if found.Some? {
      JoinsExistingMatch(reg, playerName, conn, newId, found.value);
    } else {
      JoinsNewMatch(reg, playerName, conn, newId);
    }
  }

  lemma JoinsExistingMatch(reg: Registry, playerName: string, conn: Conn, newId: string, i: nat)
    requires UniqueKeys(reg) && Get(reg, newId).None?
    requires FirstWhere(reg, HasRoom) == Some(i)
    ensures var r := AddPlayer(reg, playerName, conn, newId);
      r.1 == Some(reg[i].key) && |r.0| == |reg|
  {
    var k := reg[i].key;
    FirstKeyIndex(reg, Some(i));
    var m := reg[i].value;
    var m1 := m.(players := m.players + [Player(playerName, k, conn)]);
    assert |Set(reg, k, m1)| == |reg|;
  }

  lemma JoinsNewMatch(reg: Registry, playerName: string, conn: Conn, newId: string)
    requires UniqueKeys(reg) && Get(reg, newId).None?
    requires FirstWhere(reg, HasRoom).None?
    ensures var r := AddPlayer(reg, playerName, conn, newId);
      r.1 == Some(newId) && r.0[..|reg|] == reg && |r.0| == |reg| + 1
  {
    var reg1 := Set(reg, newId, Match([], 0, None));
    assert reg1 == reg + [Entry(newId, Match([], 0, None))];
    IndexOfUnique(reg1, newId, Some(|reg|));
    var m1 := Match([Player(playerName, newId, conn)], 0, None);
    assert Set(reg1, newId, m1) == reg1[|reg| := Entry(newId, m1)];
  }

  /**
   * A match whose opponent left (one player, winner already declared) is
   * joined like any other: the newcomer becomes its second player and the
   * match is stamped again, while the old winner stays recorded.
   */
  lemma JoinReusesEndedMatch(p: Player, w: string, newcomer: string, conn: Conn, key: string, newId: string)
    requires key != newId
    ensures var reg := [Entry(key, Match([p], 1, Some(w)))];
      var r := AddPlayer(reg, newcomer, conn, newId);
      && r.1 == Some(key)
      && Get(r.0, key) == Some(Match([p, Player(newcomer, key, conn)], 2, Some(w)))
  {
    var reg := [Entry(key, Match([p], 1, Some(w)))];
    assert Get(reg, newId).None?;
    assert Get(reg, key) == Some(Match([p], 1, Some(w)));
    JoinsFirstWithRoom(reg, newcomer, conn, newId);
    assert HasRoom(reg[0].value);
    var r := AddPlayer(reg, newcomer, conn, newId);
    assert r.1 == Some(key);
    assert [p] + [Player(newcomer, key, conn)] == [p, Player(newcomer, key, conn)];
  }

  /** `findIndex(p => p.name === name)`. */
  function IndexOfName(ps: seq<Player>, name: string): (r: Option<nat>)
    ensures r.Some? ==> r.value < |ps| && ps[r.value].name == name
    ensures r.Some? ==> forall j :: 0 <= j < r.value ==> ps[j].name != name
    ensures r.None? <==> !HasName(ps, name)
  {
    if ps == [] then None
    else if ps[0].name == name then Some(0)
    else match IndexOfName(ps[1..], name)
      case None =>
        assert forall j :: 0 < j < |ps| ==> ps[j] == ps[1..][j - 1];
        None
      case Some(i) => Some(i + 1)
  }

  /** The private `endMatch(matchId, w)`: one `winner` frame per current player, in order, then `w` is recorded. */
  function EndMatch(reg: Registry, matchId: string, winnerName: string): (r: (Registry, seq<Frame>))
    ensures Get(reg, matchId).None? ==> r == (reg, [])
    ensures Get(reg, matchId).Some? ==>
      var m := Get(reg, matchId).value;
      && Get(r.0, matchId) == Some(m.(winner := Some(winnerName)))
      && |r.1| == |m.players|
      && forall i :: 0 <= i < |m.players| ==> r.1[i] == Send(m.players[i].conn, Winner(winnerName))
    ensures forall k :: k != matchId ==> Get(r.0, k) == Get(reg, k)
    ensures UniqueKeys(reg) ==> UniqueKeys(r.0)
    ensures Keys(r.0) == Keys(reg)
  {
    match Get(reg, matchId)
    case None => (reg, [])
    case Some(m) =>
      SetKeys(reg, matchId, m.(winner := Some(winnerName)));
      (Set(reg, matchId, m.(winner := Some(winnerName))), Broadcast(m.players, Winner(winnerName)))
  }

  /**
   * `removePlayer(matchId, playerName)`: `false` and no change for an unknown
   * match or a name not in it; otherwise `true`, only the first player with
   * that name is spliced out, and the match is deleted if that emptied it or
   * ended with its first remaining player as winner.
   */
  function RemovePlayer(reg: Registry, matchId: string, playerName: string): (r: (Registry, bool, seq<Frame>))
    ensures r.1 <==> Get(reg, matchId).Some? && HasName(Get(reg, matchId).value.players, playerName)
    ensures !r.1 ==> r.0 == reg && r.2 == []
    ensures forall k :: k != matchId ==> Get(r.0, k) == Get(reg, k)
    ensures r.1 ==>
      var m := Get(reg, matchId).value;
      var i := IndexOfName(m.players, playerName).value;
      var rest := m.players[..i] + m.players[i + 1..];
      match Get(r.0, matchId)
      case None => rest == [] && r.2 == []
      case Some(m') =>
        && rest != []
        && m' == m.(players := rest, winner := Some(rest[0].name))
        && r.2 == Broadcast(rest, Winner(rest[0].name))
    ensures r.1 && Get(r.0, matchId).None? ==> r.0 == Delete(reg, matchId) && IsSubsequence(r.0, reg)
    ensures Get(r.0, matchId).Some? ==> Keys(r.0) == Keys(reg)
  {
    match Get(reg, matchId)
    case None => (reg, false, [])
    case Some(m) =>
      match IndexOfName(m.players, playerName)
      case None => (reg, false, [])
      case Some(i) =>
        var players := m.players[..i] + m.players[i + 1..];
        var reg1 := Set(reg, matchId, m.(players := players));
        SetKeys(reg, matchId, m.(players := players));
        if |players| == 0 then
          DeleteAfterSet(reg, matchId, m.(players := players));
          DeleteKeepsOrder(reg, matchId);
          (Delete(reg1, matchId), true, [])
        else
          var (reg2, out) := EndMatch(reg1, matchId, players[0].name);
          (reg2, true, out)
  }

  /**
   * What a successful `removePlayer(matchId, name)` does, read through the
   * stored player list `ps`: the first player with the name is spliced out.
   * A match left empty is deleted with nothing sent; otherwise it stays in
   * place with its stamp count, the remaining players in order and the
   * first of them as winner, and each of them is sent a `winner` frame.
   */
  predicate Spliced(reg: Registry, reg': Registry, out: seq<Frame>, matchId: string, name: string)
    requires HasName(PlayersAt(reg, matchId), name)
  {
    var ps := PlayersAt(reg, matchId);
    var i := IndexOfName(ps, name).value;
    var rest := ps[..i] + ps[i + 1..];
    && |PlayersAt(reg', matchId)| + 1 == |ps|
    && (rest == [] ==> reg' == Delete(reg, matchId) && out == [])
    && (rest != [] ==>
          && Keys(reg') == Keys(reg)
          && Get(reg', matchId) == Some(Get(reg, matchId).value.(players := rest, winner := Some(rest[0].name)))
          && out == Broadcast(rest, Winner(rest[0].name)))
  }

  /** `removePlayer` of a present name is exactly the splice. */
  lemma RemovePlayerSplices(reg: Registry, matchId: string, playerName: string)
    ensures HasName(PlayersAt(reg, matchId), playerName) ==>
      var r := RemovePlayer(reg, matchId, playerName);
      Spliced(reg, r.0, r.2, matchId, playerName)
  {
    var ps := PlayersAt(reg, matchId);
    if HasName(ps, playerName) {
      var i := IndexOfName(ps, playerName).value;
      var rest := ps[..i] + ps[i + 1..];
      assert |rest| + 1 == |ps|;
    }
  }

  /** The registry invariant: unique keys, and every stored match holds one or two players recorded under its own id. */
  ghost predicate Valid(reg: Registry) {
    && UniqueKeys(reg)
    && forall k :: Get(reg, k).Some? ==> WellFormed(k, Get(reg, k).value)
  }

  predicate WellFormed(id: string, m: Match) {
    && 1 <= |m.players| <= 2
    && forall p :: p in m.players ==> p.matchId == id
  }

  /** `addPlayer` keeps the invariant. */
  lemma AddPlayerKeepsValid(reg: Registry, playerName: string, conn: Conn, newId: string)
    requires Valid(reg) && Get(reg, newId).None?
    ensures Valid(AddPlayer(reg, playerName, conn, newId).0)
  {
    var r := AddPlayer(reg, playerName, conn, newId);
    var id := r.1.value;
    forall k | Get(r.0, k).Some? ensures WellFormed(k, Get(r.0, k).value) {
      if k == id {
        var ps := Get(r.0, id).value.players;
        assert ps == PlayersAt(reg, id) + [Player(playerName, id, conn)];
        forall p | p in ps ensures p.matchId == id {
          if p in PlayersAt(reg, id) { assert Get(reg, id).Some?; }
        }
      }
    }
  }

  /** Storing a well-formed match under its own id keeps the invariant. */
  lemma SetKeepsValid(reg: Registry, id: string, m: Match)
    requires Valid(reg) && WellFormed(id, m)
    ensures Valid(Set(reg, id, m))
  {
  }

  /** Splicing one player out of a well-formed match leaves it well formed when a player remains. */
  lemma SpliceKeepsWellFormed(id: string, m: Match, i: nat, winner: Option<string>)
    requires WellFormed(id, m) && i < |m.players| && |m.players| == 2
    ensures WellFormed(id, m.(players := m.players[..i] + m.players[i + 1..], winner := winner))
  {
    var rest := m.players[..i] + m.players[i + 1..];
    forall p | p in rest ensures p in m.players {
      var j :| 0 <= j < |rest| && rest[j] == p;
      if j < i { assert p == m.players[j]; } else { assert p == m.players[j + 1]; }
    }
  }

  /** `removePlayer` keeps the invariant. */
  lemma RemovePlayerKeepsValid(reg: Registry, matchId: string, playerName: string)
    requires Valid(reg)
    ensures Valid(RemovePlayer(reg, matchId, playerName).0)
  {
    var r := RemovePlayer(reg, matchId, playerName);
    if r.1 {
      var m := Get(reg, matchId).value;
      var i := IndexOfName(m.players, playerName).value;
      var rest := m.players[..i] + m.players[i + 1..];
      if rest == [] {
        assert r.0 == Delete(reg, matchId);
        DeleteKeepsUnique(reg, matchId);
      } else {
        var m' := m.(players := rest, winner := Some(rest[0].name));
        SpliceKeepsWellFormed(matchId, m, i, Some(rest[0].name));
        SetTwice(reg, matchId, m.(players := rest), m');
        assert r.0 == Set(reg, matchId, m');
        SetKeepsValid(reg, matchId, m');
      }
    }
  }
}
