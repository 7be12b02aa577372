/**
 * The `/match` WebSocket route: the admission decision for a new socket,
 * and the `message`, `close` and `error` handlers attached to an admitted
 * one.  The route keeps a `connections` map from trimmed player name to
 * socket and is wired to the older `MatchesService` registry.  Each handler
 * runs to completion, so each is one state transition returning the frames
 * it sends and the closes it performs, in order.
 */
module Gateway {
  import opened Maybe
  import opened Protocol
  import opened OrderedMap
  import opened Text
  import M = Matches

  datatype Gateway = Gateway(connections: map<string, Conn>, registry: M.Registry)

  /** What the `close` and `error` handlers of an admitted socket close over. */
  datatype Session = Session(conn: Conn, matchId: string, playerName: string)

  datatype Admission = Admission(gateway: Gateway, outbox: seq<Frame>, session: Option<Session>)

  const NameRequired := "Player name is required"
  const AlreadyConnected := "Player already connected"
  const JoinFailed := "Failed to create or join match"
  const SocketError := "Socket error"

  /** `!playerName` in JavaScript: the query parameter is absent or the empty string. */
  predicate Missing(playerName: Option<string>) {
    playerName.None? || playerName.value == ""
  }

  /**
   * A new socket asks to join with the raw `playerName` query parameter.
   * The name is checked for presence before it is trimmed, so a name of
   * spaces only is admitted under the empty name.  The player joins the
   * match `addPlayer` picks; a falsy match id (the empty string) is refused
   * with 1011 after the join has already happened.
   */
  function Connect(g: Gateway, conn: Conn, playerName: Option<string>, newId: string): (r: Admission)
    requires UniqueKeys(g.registry) && Get(g.registry, newId).None?
    ensures Missing(playerName) ==> r == Admission(g, [Close(conn, PolicyViolation, NameRequired)], None)
    ensures !Missing(playerName) && Trim(playerName.value) in g.connections ==>
      r == Admission(g, [Close(conn, PolicyViolation, AlreadyConnected)], None)
    ensures r.session.Some? <==>
      && !Missing(playerName) && Trim(playerName.value) !in g.connections
      && M.AddPlayer(g.registry, Trim(playerName.value), conn, newId).1 != Some("")
    ensures r.session.None? ==> r.gateway.connections == g.connections
    ensures !Missing(playerName) && Trim(playerName.value) !in g.connections && r.session.None? ==>
      && r.gateway.registry == M.AddPlayer(g.registry, Trim(playerName.value), conn, newId).0
      && r.outbox == [Close(conn, InternalError, JoinFailed)]
    ensures r.session.Some? ==>
      var s := r.session.value;
      && s.conn == conn && s.playerName == Trim(playerName.value)
      && r.gateway.connections == g.connections[s.playerName := conn]
      && r.outbox == [Send(conn, Joined(s.matchId, playerName.value))]
      && Get(r.gateway.registry, s.matchId).Some?
      && M.PlayersAt(r.gateway.registry, s.matchId) == M.PlayersAt(g.registry, s.matchId) + [Player(s.playerName, s.matchId, conn)]
      && (forall k :: k != s.matchId ==> Get(r.gateway.registry, k) == Get(g.registry, k))
      && (r.gateway.registry, Some(s.matchId)) == M.AddPlayer(g.registry, s.playerName, conn, newId)
  {
    if Missing(playerName) then
      Admission(g, [Close(conn, PolicyViolation, NameRequired)], None)
    else
      var name := Trim(playerName.value);
      if name in g.connections then
        Admission(g, [Close(conn, PolicyViolation, AlreadyConnected)], None)
      else
        var (registry, matchId) := M.AddPlayer(g.registry, name, conn, newId);
        match matchId
        case None =>
          Admission(g.(registry := registry), [Close(conn, InternalError, JoinFailed)], None)
        case Some(id) =>
          if id == "" then
            Admission(g.(registry := registry), [Close(conn, InternalError, JoinFailed)], None)
          else
            Admission(Gateway(g.connections[name := conn], registry), [Send(conn, Joined(id, playerName.value))], Some(Session(conn, id, name)))
  }

  /** A name of whitespace only passes the presence check and is admitted as the empty name. */
  lemma BlankNameAdmittedAsEmpty(g: Gateway, conn: Conn, playerName: string, newId: string)
    requires UniqueKeys(g.registry) && Get(g.registry, newId).None?
    requires playerName != "" && AllWhitespace(playerName) && "" !in g.connections
    requires newId != "" && Get(g.registry, "").None?
    ensures var r := Connect(g, conn, Some(playerName), newId);
      r.session.Some? && r.session.value.playerName == "" && "" in r.gateway.connections
  {
    TrimEmptyIffBlank(playerName);
    var id := M.AddPlayer(g.registry, "", conn, newId).1.value;
    assert id != "" by {
      if Get(g.registry, id).None? { assert id == newId; }
    }
  }

  /** Inbound messages are ignored: no state changes and nothing is sent. */
  function OnMessage(g: Gateway, s: Session, raw: seq<bv8>): (r: (Gateway, seq<Frame>))
    ensures r.0 == g && r.1 == []
  {
    (g, [])
  }

  /**
   * The `close` handler: the session's player leaves its match under the
   * trimmed name and the name is freed.  A match left empty is deleted; a
   * match with a player remaining is ended with that player as winner and
   * every remaining player is sent a `winner` frame.
   */
  function OnClose(g: Gateway, s: Session): (r: (Gateway, seq<Frame>))
    ensures r.0.connections == g.connections - {s.playerName}
    ensures r.0.registry == M.RemovePlayer(g.registry, s.matchId, s.playerName).0
    ensures forall k :: k != s.matchId ==> Get(r.0.registry, k) == Get(g.registry, k)
    ensures !HasName(M.PlayersAt(g.registry, s.matchId), s.playerName) ==> r.0.registry == g.registry && r.1 == []
    ensures HasName(M.PlayersAt(g.registry, s.matchId), s.playerName) ==>
      M.Spliced(g.registry, r.0.registry, r.1, s.matchId, s.playerName)
  {
    M.RemovePlayerSplices(g.registry, s.matchId, s.playerName);
    var left := M.RemovePlayer(g.registry, s.matchId, s.playerName);
    (Gateway(g.connections - {s.playerName}, left.0), left.2)
  }

  /** The `error` handler does what `close` does and then closes the socket with 1011. */
  function OnError(g: Gateway, s: Session): (r: (Gateway, seq<Frame>))
    ensures r.0 == OnClose(g, s).0
    ensures |r.1| == |OnClose(g, s).1| + 1
    ensures r.1[..|r.1| - 1] == OnClose(g, s).1
    ensures r.1[|r.1| - 1] == Close(s.conn, InternalError, SocketError)
  {
    var (g1, out) := OnClose(g, s);
    (g1, out + [Close(s.conn, InternalError, SocketError)])
  }

  /** Both socket handlers keep the registry invariant, and so does admission. */
  lemma HandlersKeepRegistryValid(g: Gateway, conn: Conn, playerName: Option<string>, newId: string, s: Session)
    requires M.Valid(g.registry) && Get(g.registry, newId).None?
    ensures M.Valid(Connect(g, conn, playerName, newId).gateway.registry)
    ensures M.Valid(OnClose(g, s).0.registry)
    ensures M.Valid(OnError(g, s).0.registry)
  {
    ConnectKeepsRegistryValid(g, conn, playerName, newId);
    M.RemovePlayerKeepsValid(g.registry, s.matchId, s.playerName);
  }

  lemma ConnectKeepsRegistryValid(g: Gateway, conn: Conn, playerName: Option<string>, newId: string)
    requires M.Valid(g.registry) && Get(g.registry, newId).None?
    ensures M.Valid(Connect(g, conn, playerName, newId).gateway.registry)
  {
    if !Missing(playerName) && Trim(playerName.value) !in g.connections {
      var name := Trim(playerName.value);
      M.AddPlayerKeepsValid(g.registry, name, conn, newId);
      assert Connect(g, conn, playerName, newId).gateway.registry == M.AddPlayer(g.registry, name, conn, newId).0;
    }
  }

}
