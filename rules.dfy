/**
 * The rules of the game as functions on a state value: reset, one key
 * press, one tick of the snake, and the speed the loop runs at. The class
 * in module SnakeGame updates its fields exactly as these functions say.
 */
module Rules {
  import opened Grid
  import opened Food

  /** The board is `GridSize` cells on a side. */
  const GridSize: nat := 20

  /** The keys the game reacts to. */
  datatype Key = Arrow(d: Direction) | P | R | Q

  /**
   * Everything the game loop keeps between frames. `over` is true while the
   * game-over screen waits for R or Q; `exited` is true once Q was pressed
   * there.
   */
  datatype State = State(
    snake: seq<Cell>,
    direction: Direction,
    food: Cell,
    score: nat,
    paused: bool,
    over: bool,
    exited: bool)

  /**
   * What holds of every state the game reaches. Food is never under the
   * body; it can lie under the snake only while the snake is the single
   * start cell of a reset, when the random food cell happened to be it.
   */
  predicate Inv(s: State) {
    && |s.snake| >= 1
    && AllInGrid(s.snake, GridSize)
    && InGrid(s.food, GridSize)
    && |s.snake| == s.score + 1
    && (s.food in s.snake ==> s.snake == [Cell(0, 0)])
    && (!s.over ==> Distinct(s.snake))
    && (s.over ==> !s.paused)
  }

  function Opposite(d: Direction): Direction {
    match d
    case Up => Down
    case Down => Up
    case Left => Right
    case Right => Left
  }

  /**
   * The direction after an arrow key `k` while heading `d`: the key is
   * refused when it points straight back, and taken otherwise.
   */
  function Steer(d: Direction, k: Direction): (r: Direction)
    ensures r == (if k == Opposite(d) then d else k)
  {
    if k == Up && d != Down then Up
    else if k == Down && d != Up then Down
    else if k == Left && d != Right then Left
    else if k == Right && d != Left then Right
    else d
  }

  /** Frames per second: ten, one more for every five points, at most thirty. */
  function Speed(score: nat): (r: nat)
    ensures 10 <= r <= 30
    ensures r == 30 <==> score >= 100
  {
    if 10 + score / 5 < 30 then 10 + score / 5 else 30
  }

  lemma SpeedMonotone(a: nat, b: nat)
    requires a <= b
    ensures Speed(a) <= Speed(b)
  {
  }

  /** The state `reset_game` leaves, with the game-over screen dismissed. */
  function ResetState(draw: Cell): (r: State)
    ensures r.snake == [Cell(0, 0)] && r.direction == Right && r.food == draw
    ensures r.score == 0 && !r.paused && !r.over && !r.exited
  {
    State([Cell(0, 0)], Right, draw, 0, false, false, false)
  }

  /** Whether a tick moves the snake. */
  predicate Moves(s: State) {
    !s.paused && !s.over && !s.exited
  }

  /** One key press; `draw` is the random food cell a restart would pick. */
  function KeyStep(s: State, k: Key, draw: Cell): (r: State)
    ensures Inv(s) && InGrid(draw, GridSize) ==> Inv(r)
  {
    if s.exited then s
    else if s.over then
      match k
      case R => ResetState(draw)
      case Q => s.(exited := true)
      case _ => s
    else
      match k
      case P => s.(paused := !s.paused)
      case Arrow(d) => if s.paused then s else s.(direction := Steer(s.direction, d))
      case _ => s
  }

  /** A batch of key presses handled in order, each with its own restart draw. */
  function KeysStep(s: State, keys: seq<Key>, draws: seq<Cell>): (r: State)
    requires |draws| == |keys|
    ensures Inv(s) && AllInGrid(draws, GridSize) ==> Inv(r)
    decreases |keys|
  {
    if keys == [] then s
    else KeysStep(KeyStep(s, keys[0], draws[0]), keys[1..], draws[1..])
  }

  /** The cell the head moves to on this tick. */
  function Advance(s: State): (r: Cell)
    requires Inv(s)
    ensures InGrid(r, GridSize)
  {
    NextHead(s.snake[0], s.direction, GridSize)
  }

  /** The snake with the new head in front and nothing dropped yet. */
  function Grown(s: State): (r: seq<Cell>)
    requires Inv(s)
    ensures |r| == |s.snake| + 1 && r[0] == Advance(s) && r[1..] == s.snake
  {
    [Advance(s)] + s.snake
  }

  /**
   * What a tick needs of the random source: in-grid cells, and when the
   * snake eats, some cell off the grown snake.
   */
  predicate DrawsOk(s: State, draws: seq<Cell>)
    requires Inv(s)
  {
    && AllInGrid(draws, GridSize)
    && (Moves(s) && Advance(s) == s.food ==> HasFreeFrom(Grown(s), draws, 0))
  }

  /** One tick of the game loop. */
  function TickStep(s: State, draws: seq<Cell>): State
    requires Inv(s) && DrawsOk(s, draws)
  {
    if !Moves(s) then s
    else if Advance(s) == s.food then
      var body := Grown(s);
      s.(snake := body, score := s.score + 1,
         food := draws[FirstFree(body, draws, 0)], over := body[0] in body[1..])
    else
      var body := Grown(s)[..|s.snake|];
      s.(snake := body, over := body[0] in body[1..])
  }

  /**
   * How many draws a tick consumes: none unless the snake eats, otherwise
   * up to and including the first draw off the grown snake.
   */
  function DrawsUsed(s: State, draws: seq<Cell>): (r: nat)
    requires Inv(s) && DrawsOk(s, draws)
    ensures r > 0 <==> Moves(s) && Advance(s) == s.food
    ensures r > 0 ==> r <= |draws| && draws[r - 1] !in Grown(s)
    ensures r > 0 ==> forall j :: 0 <= j < r - 1 ==> draws[j] in Grown(s)
  {
    if Moves(s) && Advance(s) == s.food then FirstFree(Grown(s), draws, 0) + 1 else 0
  }

  // ---------------------------------------------------------------------
  // Keys

  lemma PauseToggles(s: State, draw: Cell)
    requires !s.over && !s.exited
    ensures KeyStep(s, P, draw) == s.(paused := !s.paused)
  {
  }

  lemma PausedIgnoresArrows(s: State, d: Direction, draw: Cell)
    requires s.paused
    ensures KeyStep(s, Arrow(d), draw) == s
  {
  }

  /** While playing, an arrow key changes the direction unless it points back. */
  lemma ArrowSteers(s: State, d: Direction, draw: Cell)
    requires Moves(s)
    ensures KeyStep(s, Arrow(d), draw) ==
      if d == Opposite(s.direction) then s else s.(direction := d)
  {
  }

  /** The game-over screen takes only R and Q. */
  lemma GameOverKeys(s: State, k: Key, draw: Cell)
    requires s.over && !s.exited
    ensures k == R ==> KeyStep(s, k, draw) == ResetState(draw)
    ensures k == Q ==> KeyStep(s, k, draw) == s.(exited := true)
    ensures k != R && k != Q ==> KeyStep(s, k, draw) == s
  {
  }

  /** R and Q do nothing while the game is still on. */
  lemma RestartOnlyAtGameOver(s: State, draw: Cell)
    requires !s.over
    ensures KeyStep(s, R, draw) == s
    ensures KeyStep(s, Q, draw) == s
  {
  }

  /**
   * Each key is checked against the direction the previous key of the same
   * batch left, so two keys handled before one tick can turn the snake
   * straight back.
   */
  lemma TwoKeysReverse(s: State, a: Cell, b: Cell)
    requires Moves(s) && s.direction == Right
    ensures KeysStep(s, [Arrow(Up), Arrow(Left)], [a, b]).direction == Left
  {
  }

  // ---------------------------------------------------------------------
  // Ticks

  lemma TickWhenStopped(s: State, draws: seq<Cell>)
    requires Inv(s) && DrawsOk(s, draws) && !Moves(s)
    ensures TickStep(s, draws) == s && DrawsUsed(s, draws) == 0
  {
  }

  /** The head never lands on the cell it left. */
  lemma AdvanceLeavesHead(s: State)
    requires Inv(s)
    ensures Advance(s) != s.snake[0]
  {
  }

  /** A head that lands on the food lands on a cell off the snake. */
  lemma EatenCellIsFree(s: State)
    requires Inv(s) && Advance(s) == s.food
    ensures s.food !in s.snake
  {
  }

  /**
   * Eating: one point more, the snake one cell longer (the old snake kept
   * behind the new head), new food off the grown snake, and no game over,
   * since the food was off the snake.
   */
  lemma TickEats(s: State, draws: seq<Cell>)
    requires Inv(s) && DrawsOk(s, draws) && Moves(s) && Advance(s) == s.food
    ensures var r := TickStep(s, draws);
      && r.score == s.score + 1
      && |r.snake| == |s.snake| + 1
      && r.snake == [Advance(s)] + s.snake
      && r.food !in r.snake
      && InGrid(r.food, GridSize)
      && !r.over
      && r.direction == s.direction && r.paused == s.paused && r.exited == s.exited
  {
  }

  /**
   * Not eating: score, length and food unchanged, and the food off the
   * snake; the snake is the new head followed by the old snake without its
   * last cell.
   */
  lemma TickMoves(s: State, draws: seq<Cell>)
    requires Inv(s) && DrawsOk(s, draws) && Moves(s) && Advance(s) != s.food
    ensures var r := TickStep(s, draws);
      && r.score == s.score
      && |r.snake| == |s.snake|
      && r.snake == [Advance(s)] + s.snake[..|s.snake| - 1]
      && r.food == s.food
      && r.food !in r.snake
      && r.direction == s.direction && r.paused == s.paused && r.exited == s.exited
  {
  }

  /**
   * Game over fires exactly when the new head occurs in the rest of the
   * snake left after eating or dropping the tail; when it does not fire the
   * cells stay pairwise distinct.
   */
  lemma TickGameOver(s: State, draws: seq<Cell>)
    requires Inv(s) && DrawsOk(s, draws) && Moves(s)
    ensures var r := TickStep(s, draws);
      && |r.snake| >= 1
      && r.snake[0] == Advance(s)
      && (r.over <==> r.snake[0] in r.snake[1..])
      && (!r.over ==> Distinct(r.snake))
  {
  }

  /** A tick keeps every invariant. */
  lemma TickStepInv(s: State, draws: seq<Cell>)
    requires Inv(s) && DrawsOk(s, draws)
    ensures Inv(TickStep(s, draws))
  {
  }

  /** The snake is never empty. */
  lemma SnakeNeverEmpty(s: State, draws: seq<Cell>)
    requires Inv(s) && DrawsOk(s, draws)
    ensures |TickStep(s, draws).snake| >= 1
  {
  }

  /** While the game is on the snake holds at most the whole board. */
  lemma ScoreBound(s: State)
    requires Inv(s) && !s.over
    ensures |s.snake| <= GridSize * GridSize && s.score < GridSize * GridSize
  {
    DistinctBound(s.snake, GridSize);
  }

  /**
   * Before the snake fills the board a free cell is left for the food, so
   * a uniform random source reaches one with probability one.
   */
  lemma FoodCellAvailable(s: State)
    requires Inv(s) && |s.snake| + 1 < GridSize * GridSize
    ensures exists c :: InGrid(c, GridSize) && c !in Grown(s)
  {
    FreeCellExists(Grown(s), GridSize);
  }

  /**
   * The eat that fills the whole board leaves no free cell: every in-grid
   * draw is occupied and the resample loop never ends.
   */
  lemma WinningEatHangs(s: State, draws: seq<Cell>)
    requires Inv(s) && Moves(s) && Advance(s) == s.food
    requires |s.snake| + 1 == GridSize * GridSize
    requires AllInGrid(draws, GridSize)
    ensures !HasFreeFrom(Grown(s), draws, 0)
  {
    EatenCellIsFree(s);
    DistinctCons(Advance(s), s.snake);
    FullCover(Grown(s), GridSize);
  }
}
