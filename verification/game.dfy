/**
 * The paddle game state held by `GameService`: two paddles, a ball that the
 * service never moves, a score it never changes, and an end flag.  Every
 * constant of the service is an integer and the only arithmetic is adding
 * or subtracting the paddle step, so `int` is exact here.
 */
module Game {

  const PaddleWidth := 10
  const PaddleHeight := 100
  const PaddleSpeed := 20
  const GameWidth := 1000
  const GameHeight := 500

  /** The lowest position a paddle's top edge may take: the paddle then touches the bottom wall. */
  const MaxPaddleY := GameHeight - PaddleHeight

  datatype Paddle = Paddle(x: int, y: int)
  datatype Ball = Ball(x: int, y: int, vx: int, vy: int)
  datatype Score = Score(left: int, right: int)
  datatype GameState = GameState(leftPaddle: Paddle, rightPaddle: Paddle, ball: Ball, score: Score, isEnded: bool)

  datatype Side = Left | Right
  datatype Move = Up | Down

  function PaddleOf(g: GameState, side: Side): Paddle {
    match side
    case Left => g.leftPaddle
    case Right => g.rightPaddle
  }

  /** The signed displacement a move asks for before clamping. */
  function Delta(move: Move): int {
    match move
    case Up => -PaddleSpeed
    case Down => PaddleSpeed
  }

  /** The state a new `GameService` starts in. */
  function NewGame(): (g: GameState)
    ensures g.leftPaddle.y == g.rightPaddle.y && 2 * g.leftPaddle.y + PaddleHeight == GameHeight
    ensures g.leftPaddle.x == 0 && g.rightPaddle.x + PaddleWidth == GameWidth
    ensures 2 * g.ball.x == GameWidth && 2 * g.ball.y == GameHeight
    ensures g.ball.vx == 0 && g.ball.vy == 0
    ensures g.score == Score(0, 0) && !g.isEnded
  {
    var paddleY := (GameHeight - PaddleHeight) / 2;
    GameState(
      Paddle(0, paddleY),
      Paddle(GameWidth - PaddleWidth, paddleY),
      Ball(GameWidth / 2, GameHeight / 2, 0, 0),
      Score(0, 0),
      false)
  }

  /**
   * `updatePaddle(side, move)`: one step of `PaddleSpeed` in the move's
   * direction, clamped to the field.  The move is not refused once the game
   * has ended: the service does not look at `isEnded`.
   */
  function UpdatePaddle(g: GameState, side: Side, move: Move): (r: GameState)
    ensures var y := PaddleOf(r, side).y; 0 <= y <= MaxPaddleY
    ensures var t := PaddleOf(g, side).y + Delta(move);
      && (0 <= t <= MaxPaddleY ==> PaddleOf(r, side).y == t)
      && (t < 0 ==> PaddleOf(r, side).y == 0)
      && (t > MaxPaddleY ==> PaddleOf(r, side).y == MaxPaddleY)
    ensures PaddleOf(r, side).x == PaddleOf(g, side).x
    ensures side == Left ==> r.rightPaddle == g.rightPaddle
    ensures side == Right ==> r.leftPaddle == g.leftPaddle
    ensures r.ball == g.ball && r.score == g.score && r.isEnded == g.isEnded
  {
    var target := PaddleOf(g, side);
    var newY := target.y + Delta(move);
    var y :=
      if newY < 0 then 0
      else if newY + PaddleHeight > GameHeight then GameHeight - PaddleHeight
      else newY;
    match side
    case Left => g.(leftPaddle := target.(y := y))
    case Right => g.(rightPaddle := target.(y := y))
  }

  /** `endGame()`: raise the end flag; paddles, ball and score stay. */
  function EndGame(g: GameState): (r: GameState)
    ensures r.isEnded
    ensures r.leftPaddle == g.leftPaddle && r.rightPaddle == g.rightPaddle
    ensures r.ball == g.ball && r.score == g.score
  {
    g.(isEnded := true)
  }

  /** Ending an ended game changes nothing. */
  lemma EndGameIdempotent(g: GameState)
    ensures EndGame(EndGame(g)) == EndGame(g)
  {
  }

  /** Moves are applied whether or not the game has ended, so ending and moving commute. */
  lemma EndGameCommutesWithMove(g: GameState, side: Side, move: Move)
    ensures UpdatePaddle(EndGame(g), side, move) == EndGame(UpdatePaddle(g, side, move))
  {
  }

  /** An unclamped step up is undone by a step down, and the other way round. */
  lemma UpDownRoundTrip(g: GameState, side: Side)
    ensures PaddleSpeed <= PaddleOf(g, side).y <= MaxPaddleY ==>
      UpdatePaddle(UpdatePaddle(g, side, Up), side, Down) == g
    ensures 0 <= PaddleOf(g, side).y <= MaxPaddleY - PaddleSpeed ==>
      UpdatePaddle(UpdatePaddle(g, side, Down), side, Up) == g
  {
  }

  /** Applying a sequence of `(side, move)` inputs in order. */
  function Run(g: GameState, moves: seq<(Side, Move)>): GameState
    decreases |moves|
  {
    if moves == [] then g else Run(UpdatePaddle(g, moves[0].0, moves[0].1), moves[1..])
  }

  /** A paddle position a game started by the constructor can reach: on the field, on the step grid. */
  predicate OnGrid(y: int) {
    0 <= y <= MaxPaddleY && y % PaddleSpeed == 0
  }

  /** One step keeps a paddle on the grid: the field bounds are multiples of the step. */
  lemma UpdatePaddleKeepsGrid(g: GameState, side: Side, move: Move)
    requires OnGrid(g.leftPaddle.y) && OnGrid(g.rightPaddle.y)
    ensures var r := UpdatePaddle(g, side, move); OnGrid(r.leftPaddle.y) && OnGrid(r.rightPaddle.y)
  {
    var y := PaddleOf(g, side).y;
    assert (y + Delta(move)) % PaddleSpeed == 0;
  }

  /**
   * Every state reachable from the constructor by paddle moves has both
   * paddles on the grid, the paddles at their columns, and the ball, score
   * and end flag as the constructor set them.
   */
  lemma {:induction false} RunKeepsInvariant(g: GameState, moves: seq<(Side, Move)>)
    requires OnGrid(g.leftPaddle.y) && OnGrid(g.rightPaddle.y)
    ensures var r := Run(g, moves);
      && OnGrid(r.leftPaddle.y) && OnGrid(r.rightPaddle.y)
      && r.leftPaddle.x == g.leftPaddle.x && r.rightPaddle.x == g.rightPaddle.x
      && r.ball == g.ball && r.score == g.score && r.isEnded == g.isEnded
    decreases |moves|
  {
    if moves != [] {
      UpdatePaddleKeepsGrid(g, moves[0].0, moves[0].1);
      RunKeepsInvariant(UpdatePaddle(g, moves[0].0, moves[0].1), moves[1..]);
    }
  }

  /** From a new game, any sequence of moves leaves both paddles on a multiple of the step within `[0, MaxPaddleY]`. */
  lemma ReachablePaddlesOnGrid(moves: seq<(Side, Move)>)
    ensures var r := Run(NewGame(), moves);
      && OnGrid(r.leftPaddle.y) && OnGrid(r.rightPaddle.y)
      && r.ball == NewGame().ball && r.score == Score(0, 0) && !r.isEnded
  {
    RunKeepsInvariant(NewGame(), moves);
  }
}
