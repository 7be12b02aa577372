/**
 * `MatchesManagerService`: the registry of ongoing matches, keyed by match
 * id in insertion order.  A single-player request always gets a new,
 * already started match; a duel request joins the first match that has not
 * started, or opens a new one.  `randomUUID()` is the `freshId` parameter,
 * which must not already be a key.
 *
 * The service calls `getIsStarted()` and `initMatch(isSinglePlayer)`, which
 * `MatchService` does not define; they are read as "has been initialised"
 * (`init != null`) and the argument-less `initMatch()`.
 */
module MatchesManager {
  import opened Maybe
  import opened Protocol
  import opened Sequences
  import opened OrderedMap
  import MS = MatchService

  type Registry = Table<MS.MatchRec>

  predicate IsOpen(m: MS.MatchRec) {
    !m.started
  }

  /** The players a match stored under `id` would have once the caller joined it. */
  function PlayersAt(reg: Registry, id: string): seq<Player> {
    match Get(reg, id)
    case Some(m) => m.players
    case None => []
  }

  /**
   * `addPlayer(playerName, conn, isSinglePlayer)`.  The lookup after the
   * insertion cannot miss, so the `null` result never occurs.
   */
  function AddPlayer(reg: Registry, playerName: string, conn: Conn, isSinglePlayer: bool, freshId: string): (r: (Registry, Option<string>))
    requires UniqueKeys(reg) && Get(reg, freshId).None?
    ensures r.1.Some?
    ensures isSinglePlayer ==>
      && r.1 == Some(freshId)
      && r.0 == reg + [Entry(freshId, MS.MatchRec(freshId, [Player(playerName, freshId, conn)], true, None))]
    ensures !isSinglePlayer ==>
      var id := r.1.value;
      && Get(r.0, id).Some?
      && Get(r.0, id).value.players == PlayersAt(reg, id) + [Player(playerName, id, conn)]
      && (Get(r.0, id).value.started <==> |Get(r.0, id).value.players| == 2)
      && Get(r.0, id).value.matchId == (if Get(reg, id).Some? then Get(reg, id).value.matchId else id)
      && Get(r.0, id).value.winner == (if Get(reg, id).Some? then Get(reg, id).value.winner else None)
      && (forall k :: k != id ==> Get(r.0, k) == Get(reg, k))
    ensures Keys(r.0) == if Get(reg, r.1.value).Some? then Keys(reg) else Keys(reg) + [r.1.value]
  {
    if isSinglePlayer then
      var m := MS.InitMatch(MS.AddPlayer(MS.NewMatch(freshId), Player(playerName, freshId, conn)));
      SetKeys(reg, freshId, m);
      (Set(reg, freshId, m), Some(freshId))
    else
      var found := FirstWhere(reg, IsOpen);
      var id := if found.Some? then reg[found.value].key else freshId;
      var reg1 := if found.Some? then reg else Set(reg, freshId, MS.NewMatch(freshId));
      FirstKeyIndex(reg, found);
      SetKeys(reg, freshId, MS.NewMatch(freshId));
      match Get(reg1, id)
      case None => (reg1, None)
      case Some(m) =>
        var m1 := MS.AddPlayer(m, Player(playerName, id, conn));
        var m2 := if |m1.players| == 2 then MS.InitMatch(m1) else m1;
        SetKeys(reg1, id, m2);
        (Set(reg1, id, m2), Some(id))
  }

  /** A duel request joins the first match, in insertion order, that has not started; with none open, it opens a new match at the end. */
  lemma DuelJoinsFirstOpen(reg: Registry, playerName: string, conn: Conn, freshId: string)
    requires UniqueKeys(reg) && Get(reg, freshId).None?
    ensures var r := AddPlayer(reg, playerName, conn, false, freshId);
      && (forall i :: 0 <= i < |reg| && IsOpen(reg[i].value) && (forall j :: 0 <= j < i ==> !IsOpen(reg[j].value)) ==>
            r.1 == Some(reg[i].key) && |r.0| == |reg|)
      && ((forall i :: 0 <= i < |reg| ==> !IsOpen(reg[i].value)) ==>
            r.1 == Some(freshId) && r.0[..|reg|] == reg && |r.0| == |reg| + 1)
  {
    var found := FirstWhere(reg, IsOpen);
    if found.Some? {
      var id := reg[found.value].key;
      assert Get(reg, id).Some?;
    } else {
      var reg1 := Set(reg, freshId, MS.NewMatch(freshId));
      assert reg1 == reg + [Entry(freshId, MS.NewMatch(freshId))];
      var r := AddPlayer(reg, playerName, conn, false, freshId);
      assert r.0 == Set(reg1, freshId, Get(r.0, freshId).value);
      assert r.0[..|reg|] == reg1[..|reg|];
    }
  }

  /** `getMatch(matchId)`. */
  function GetMatch(reg: Registry, matchId: string): (r: Option<MS.MatchRec>)
    ensures r.Some? <==> exists i :: 0 <= i < |reg| && reg[i].key == matchId
    ensures r.Some? ==> Entry(matchId, r.value) in reg
  {
    Get(reg, matchId)
  }

  /**
   * `removePlayer(matchId, playerName)`: `false` and no change for an unknown
   * match or a name not in it; otherwise `true`, and the match is deleted if
   * nobody is left or ended with its first remaining player as winner.
   */
  function RemovePlayer(reg: Registry, matchId: string, playerName: string): (r: (Registry, bool, seq<Frame>))
    ensures r.1 <==> Get(reg, matchId).Some? && HasName(Get(reg, matchId).value.players, playerName)
    ensures !r.1 ==> r.0 == reg && r.2 == []
    ensures forall k :: k != matchId ==> Get(r.0, k) == Get(reg, k)
    ensures r.1 ==>
      var m := Get(reg, matchId).value;
      match Get(r.0, matchId)
      case None =>
        && (forall p :: p in m.players ==> p.name == playerName)
        && r.2 == []
      case Some(m') =>
        && m'.players != []
        && m'.players == MS.WithoutName(m.players, playerName)
        && m'.matchId == m.matchId
        && m'.winner == Some(m'.players[0].name)
        && m'.started == m.started
        && r.2 == Broadcast(m'.players, Winner(m'.players[0].name))
    ensures r.1 && Get(r.0, matchId).None? ==> r.0 == Delete(reg, matchId) && IsSubsequence(r.0, reg)
    ensures Get(r.0, matchId).Some? ==> Keys(r.0) == Keys(reg)
  {
    match Get(reg, matchId)
    case None => (reg, false, [])
    case Some(m) =>
      var (m1, removed) := MS.RemovePlayer(m, playerName);
      if !removed then (reg, false, [])
      else if |m1.players| == 0 then
        DeleteKeepsOrder(reg, matchId);
        (Delete(reg, matchId), true, [])
      else
        var (m2, out) := MS.EndMatch(m1, m1.players[0].name);
        SetKeys(reg, matchId, m2);
        (Set(reg, matchId, m2), true, out)
  }

  /** The registry invariant: unique keys, and every stored match holds one or two players recorded under its own id, exactly one if it has not started. */
  ghost predicate Valid(reg: Registry) {
    && UniqueKeys(reg)
    && forall k :: Get(reg, k).Some? ==> WellFormed(k, Get(reg, k).value)
  }

  predicate WellFormed(id: string, m: MS.MatchRec) {
    && m.matchId == id
    && 1 <= |m.players| <= 2
    && (!m.started ==> |m.players| == 1)
    && forall p :: p in m.players ==> p.matchId == id
  }

  /** The registry the service starts with, `new Map()`, meets the invariant. */
  lemma EmptyValid()
    ensures Valid([])
  {
  }

  /** Storing a well-formed match under its own id keeps the invariant. */
  lemma SetKeepsValid(reg: Registry, id: string, m: MS.MatchRec)
    requires Valid(reg) && WellFormed(id, m)
    ensures Valid(Set(reg, id, m))
  {
  }

  /** `addPlayer` keeps the invariant. */
  lemma AddPlayerKeepsValid(reg: Registry, playerName: string, conn: Conn, isSinglePlayer: bool, freshId: string)
    requires Valid(reg) && Get(reg, freshId).None?
    ensures Valid(AddPlayer(reg, playerName, conn, isSinglePlayer, freshId).0)
  {
    if isSinglePlayer {
      var r := AddPlayer(reg, playerName, conn, true, freshId);
      SetKeepsValid(reg, freshId, Get(r.0, freshId).value);
    } else {
      DuelKeepsValid(reg, playerName, conn, freshId);
    }
  }

  /** A duel request stores one well-formed match under the chosen id and nothing else. */
  lemma DuelKeepsValid(reg: Registry, playerName: string, conn: Conn, freshId: string)
    requires Valid(reg) && Get(reg, freshId).None?
    ensures Valid(AddPlayer(reg, playerName, conn, false, freshId).0)
  {
    var found := FirstWhere(reg, IsOpen);
    if found.Some? {
      DuelJoinKeepsValid(reg, playerName, conn, freshId, found.value);
    } else {
      DuelOpenKeepsValid(reg, playerName, conn, freshId);
    }
  }

  lemma DuelJoinKeepsValid(reg: Registry, playerName: string, conn: Conn, freshId: string, i: nat)
    requires Valid(reg) && Get(reg, freshId).None?
    requires FirstWhere(reg, IsOpen) == Some(i)
    ensures Valid(AddPlayer(reg, playerName, conn, false, freshId).0)
  {
    var id := reg[i].key;
    var m := reg[i].value;
    FirstKeyIndex(reg, Some(i));
    var m1 := MS.AddPlayer(m, Player(playerName, id, conn));
    var m2 := if |m1.players| == 2 then MS.InitMatch(m1) else m1;
    assert AddPlayer(reg, playerName, conn, false, freshId).0 == Set(reg, id, m2);
    assert WellFormed(id, m);
    SetKeepsValid(reg, id, m2);
  }

  lemma DuelOpenKeepsValid(reg: Registry, playerName: string, conn: Conn, freshId: string)
    requires Valid(reg) && Get(reg, freshId).None?
    requires FirstWhere(reg, IsOpen).None?
    ensures Valid(AddPlayer(reg, playerName, conn, false, freshId).0)
  {
    var m1 := MS.AddPlayer(MS.NewMatch(freshId), Player(playerName, freshId, conn));
    var reg1 := Set(reg, freshId, MS.NewMatch(freshId));
    assert Get(reg1, freshId) == Some(MS.NewMatch(freshId));
    assert AddPlayer(reg, playerName, conn, false, freshId).0 == Set(reg1, freshId, m1);
    SetTwice(reg, freshId, MS.NewMatch(freshId), m1);
    SetKeepsValid(reg, freshId, m1);
  }

  /** `removePlayer` keeps the invariant. */
  lemma RemovePlayerKeepsValid(reg: Registry, matchId: string, playerName: string)
    requires Valid(reg)
    ensures Valid(RemovePlayer(reg, matchId, playerName).0)
  {
    var r := RemovePlayer(reg, matchId, playerName);
    if r.1 {
      var m := Get(reg, matchId).value;
      var (m1, _) := MS.RemovePlayer(m, playerName);
      if |m1.players| == 0 {
        DeleteShape(reg, matchId);
      } else {
        assert r.0 == Set(reg, matchId, Get(r.0, matchId).value);
      }
    }
  }

  /** With no open match, a duel request appends a new, unstarted match holding just that player. */
  lemma DuelOpensNewMatch(reg: Registry, a: string, ca: Conn, newId: string)
    requires UniqueKeys(reg) && Get(reg, newId).None?
    requires forall i :: 0 <= i < |reg| ==> !IsOpen(reg[i].value)
    ensures AddPlayer(reg, a, ca, false, newId) ==
      (reg + [Entry(newId, MS.MatchRec(newId, [Player(a, newId, ca)], false, None))], Some(newId))
  {
    assert FirstWhere(reg, IsOpen).None?;
    var reg1 := Set(reg, newId, MS.NewMatch(newId));
    assert reg1 == reg + [Entry(newId, MS.NewMatch(newId))];
    IndexOfUnique(reg1, newId, Some(|reg|));
    assert Get(reg1, newId) == Some(MS.NewMatch(newId));
    var m1 := MS.AddPlayer(MS.NewMatch(newId), Player(a, newId, ca));
    assert m1 == MS.MatchRec(newId, [Player(a, newId, ca)], false, None);
    assert Set(reg1, newId, m1) == reg1[|reg| := Entry(newId, m1)];
    assert reg1[|reg| := Entry(newId, m1)] == reg + [Entry(newId, m1)];
  }

  /** Two duel requests with no open match land in the same new match: the first joiner first, started when the second arrives. */
  lemma DuelPairing(reg: Registry, a: string, ca: Conn, b: string, cb: Conn, fresh1: string, fresh2: string)
    requires UniqueKeys(reg) && Get(reg, fresh1).None? && fresh2 != fresh1 && Get(reg, fresh2).None?
    requires forall i :: 0 <= i < |reg| ==> !IsOpen(reg[i].value)
    ensures var r1 := AddPlayer(reg, a, ca, false, fresh1);
      && r1.0 == reg + [Entry(fresh1, MS.MatchRec(fresh1, [Player(a, fresh1, ca)], false, None))]
      && r1.1 == Some(fresh1)
      && UniqueKeys(r1.0) && Get(r1.0, fresh2).None?
    ensures var r1 := AddPlayer(reg, a, ca, false, fresh1);
      AddPlayer(r1.0, b, cb, false, fresh2) ==
        (reg + [Entry(fresh1, MS.MatchRec(fresh1, [Player(a, fresh1, ca), Player(b, fresh1, cb)], true, None))], Some(fresh1))
  {
    var m := MS.MatchRec(fresh1, [Player(a, fresh1, ca)], false, None);
    var reg1 := reg + [Entry(fresh1, m)];
    DuelOpensNewMatch(reg, a, ca, fresh1);
    assert UniqueKeys(reg1) && Get(reg1, fresh2).None? by {
      assert reg1 == Set(reg, fresh1, m);
    }
    JoinSoleOpen(reg, m, b, cb, fresh2);
    assert MS.AddPlayer(m, Player(b, fresh1, cb)).players == [Player(a, fresh1, ca), Player(b, fresh1, cb)];
  }

  /** When only the last match is open and holds one player, a duel request joins it and starts it. */
  lemma JoinSoleOpen(reg: Registry, m: MS.MatchRec, b: string, cb: Conn, newId: string)
    requires var reg1 := reg + [Entry(m.matchId, m)]; UniqueKeys(reg1) && Get(reg1, newId).None?
    requires forall i :: 0 <= i < |reg| ==> !IsOpen(reg[i].value)
    requires IsOpen(m) && |m.players| == 1
    ensures AddPlayer(reg + [Entry(m.matchId, m)], b, cb, false, newId) ==
      (reg + [Entry(m.matchId, MS.InitMatch(MS.AddPlayer(m, Player(b, m.matchId, cb))))], Some(m.matchId))
  {
    var reg1 := reg + [Entry(m.matchId, m)];
    forall j | 0 <= j < |reg| ensures !IsOpen(reg1[j].value) {
      assert reg1[j] == reg[j];
    }
    assert reg1[|reg|].value == m;
    assert FirstWhere(reg1, IsOpen) == Some(|reg|);
    IndexOfUnique(reg1, m.matchId, Some(|reg|));
    var m2 := MS.InitMatch(MS.AddPlayer(m, Player(b, m.matchId, cb)));
    assert Set(reg1, m.matchId, m2) == reg1[|reg| := Entry(m.matchId, m2)];
    assert reg1[|reg| := Entry(m.matchId, m2)] == reg + [Entry(m.matchId, m2)];
  }

  /** Two single-player requests never share a match, and the second leaves the first one's match as it was. */
  lemma SinglePlayerIsolation(reg: Registry, a: string, ca: Conn, b: string, cb: Conn, fresh1: string, fresh2: string)
    requires UniqueKeys(reg) && Get(reg, fresh1).None? && fresh2 != fresh1 && Get(reg, fresh2).None?
    ensures var (reg1, id1) := AddPlayer(reg, a, ca, true, fresh1);
      var (reg2, id2) := AddPlayer(reg1, b, cb, true, fresh2);
      && id1 != id2
      && Get(reg2, fresh1) == Get(reg1, fresh1)
      && Get(reg2, fresh1).value.players == [Player(a, fresh1, ca)]
      && Get(reg2, fresh2).value.players == [Player(b, fresh2, cb)]
  {
    var (reg1, id1) := AddPlayer(reg, a, ca, true, fresh1);
    assert reg1 == Set(reg, fresh1, Get(reg1, fresh1).value);
    assert Get(reg1, fresh2).None?;
    var (reg2, id2) := AddPlayer(reg1, b, cb, true, fresh2);
    assert reg2 == Set(reg1, fresh2, Get(reg2, fresh2).value);
  }
}
