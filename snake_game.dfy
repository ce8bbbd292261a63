/**
 * The running game: the variables the main loop updates, and the three
 * things that update them (reset, a key press, a tick), proved to follow
 * the functions of module Rules.
 */
module SnakeGame {
  import opened Grid
  import opened Food
  import opened Rules

  class Game {
    var snake: seq<Cell>
    var direction: Direction
    var food: Cell
    var score: nat
    var paused: bool
    var over: bool
    var exited: bool

    function Snapshot(): State
      reads this
    {
      State(snake, direction, food, score, paused, over, exited)
    }

    predicate Valid()
      reads this
    {
      Inv(Snapshot())
    }

    /** The game as it starts: a reset with `draw` as the random food cell. */
    constructor (draw: Cell)
      requires InGrid(draw, GridSize)
      ensures Valid() && Snapshot() == ResetState(draw)
    {
      snake := [Cell(0, 0)];
      direction := Right;
      food := draw;
      score := 0;
      paused := false;
      over := false;
      exited := false;
    }

    /** `reset_game`: the five game variables back to their start values. */
    method Reset(draw: Cell)
      requires Valid() && InGrid(draw, GridSize)
      modifies this
      ensures Valid()
      ensures Snapshot() == ResetState(draw).(over := old(over), exited := old(exited))
    {
      snake := [Cell(0, 0)];
      direction := Right;
      food := draw;
      score := 0;
      paused := false;
    }

    /**
     * One key press: on the game-over screen R restarts and Q quits; in
     * play P toggles the pause and, unless paused, an arrow steers.
     */
    method HandleKey(k: Key, draw: Cell)
      requires Valid() && InGrid(draw, GridSize)
      modifies this
      ensures Valid() && Snapshot() == KeyStep(old(Snapshot()), k, draw)
    {
      if exited {
        return;
      }
      if over {
        if k == R {
          Reset(draw);
          over := false;
        } else if k == Q {
          exited := true;
        }
        return;
      }
      if k == P {
        paused := !paused;
      } else if !paused && k.Arrow? {
        if k.d == Up && direction != Down {
          direction := Up;
        } else if k.d == Down && direction != Up {
          direction := Down;
        } else if k.d == Left && direction != Right {
          direction := Left;
        } else if k.d == Right && direction != Left {
          direction := Right;
        }
      }
    }

    /**
     * One tick: move the head with wraparound, then either grow and place
     * new food off the snake, or drop the tail; then check self-collision.
     * `fired` says whether game over fired, `used` how many draws the food
     * placement consumed.
     */
    method Tick(draws: seq<Cell>) returns (fired: bool, used: nat)
      requires Valid() && DrawsOk(Snapshot(), draws)
      modifies this
      ensures Valid() && Snapshot() == TickStep(old(Snapshot()), draws)
      ensures fired <==> Moves(old(Snapshot())) && over
      ensures used == DrawsUsed(old(Snapshot()), draws)
    {
      TickStepInv(Snapshot(), draws);
      ghost var s := Snapshot();
      fired, used := false, 0;
      if paused || over || exited {
        return;
      }
      var h := NextHead(snake[0], direction, GridSize);
      snake := [h] + snake;
      if snake[0] == food {
        score := score + 1;
        var k;
        food, k := Resample(snake, draws);
        used := k + 1;
      } else {
        snake := snake[..|snake| - 1];
      }
      if snake[0] in snake[1..] {
        over := true;
        fired := true;
      }
      assert Snapshot() == TickStep(s, draws);
    }

    /**
     * One pass of the main loop: the batch of key presses in order (each
     * with the food cell a restart would draw), then one tick.
     */
    method Frame(keys: seq<Key>, resetDraws: seq<Cell>, draws: seq<Cell>)
      returns (fired: bool, used: nat)
      requires Valid() && |resetDraws| == |keys| && AllInGrid(resetDraws, GridSize)
      requires DrawsOk(KeysStep(Snapshot(), keys, resetDraws), draws)
      modifies this
      ensures Valid()
      ensures Snapshot() == TickStep(KeysStep(old(Snapshot()), keys, resetDraws), draws)
      ensures fired <==> Moves(KeysStep(old(Snapshot()), keys, resetDraws)) && over
      ensures used == DrawsUsed(KeysStep(old(Snapshot()), keys, resetDraws), draws)
    {
      ghost var s0 := Snapshot();
      var i := 0;
      while i < |keys|
        invariant 0 <= i <= |keys|
        invariant Valid()
        invariant KeysStep(Snapshot(), keys[i..], resetDraws[i..]) == KeysStep(s0, keys, resetDraws)
      {
        assert keys[i..][1..] == keys[i + 1..] && resetDraws[i..][1..] == resetDraws[i + 1..];
        HandleKey(keys[i], resetDraws[i]);
        i := i + 1;
      }
      fired, used := Tick(draws);
    }

    /** The frame rate the loop is paced at after this frame. */
    function CurrentSpeed(): (r: nat)
      reads this
      ensures 10 <= r <= 30
    {
      Speed(score)
    }
  }
}
