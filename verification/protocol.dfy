/**
 * What the services put on the wire, as values.  A connection is an opaque
 * handle; sending a JSON frame or closing a socket becomes a `Frame` appended
 * to an outbox, in the order the source performs it.
 */
module Protocol {

  /** An opaque WebSocket connection handle. */
  type Conn = nat

  /** Close code for a policy violation (missing or duplicate player name). */
  const PolicyViolation := 1008
  /** Close code for an internal error (no match could be joined, socket error). */
  const InternalError := 1011

  /** A connected player as the registries store it. */
  datatype Player = Player(name: string, matchId: string, conn: Conn)

  /** The JSON bodies the server sends. */
  datatype Message =
    | Joined(matchId: string, playerName: string)   // `{ matchId, playerName }`
    | Winner(winner: string)                        // `{ type: "winner", winner }`

  datatype Frame =
    | Send(to: Conn, msg: Message)
    | Close(on: Conn, code: int, reason: string)

  /** Whether some player in `ps` is called `name`. */
  predicate HasName(ps: seq<Player>, name: string) {
    exists i :: 0 <= i < |ps| && ps[i].name == name
  }

  /** One `msg` frame to each player of `ps`, in list order (a `for … of` loop of `conn.send`). */
  function Broadcast(ps: seq<Player>, msg: Message): (out: seq<Frame>)
    ensures |out| == |ps|
    ensures forall i :: 0 <= i < |ps| ==> out[i] == Send(ps[i].conn, msg)
  {
    if ps == [] then [] else [Send(ps[0].conn, msg)] + Broadcast(ps[1..], msg)
  }
}
