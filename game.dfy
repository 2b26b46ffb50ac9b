/**
 * The authoritative game: the server's module-level state (snake, direction,
 * food, score, game-over flag, last direction change, connected clients) as
 * the fields of one object, and the operations that update it in place.
 */
module Game {
  import opened Wrappers
  import opened Directions
  import opened Grid
  import opened Arbiter
  import opened Subscribers

  /** What a broadcast sends to every client. */
  datatype Snapshot = Snapshot(snake: seq<Cell>, food: Cell, direction: Direction, score: nat, gameOver: bool)

  class SnakeGame {
    var snake: seq<Cell>
    var direction: Direction
    var food: Cell
    var score: nat
    var gameOver: bool
    var lastChangeMs: int
    var clients: set<Client>

    /**
     * The invariant every operation keeps: a non-empty body of distinct board
     * cells, food on a free board cell, and one extra cell per point scored.
     */
    ghost predicate Valid()
      reads this
    {
      && |snake| > 0
      && AllInGrid(snake)
      && Distinct(snake)
      && InGrid(food)
      && food !in snake
      && |snake| == score + 1
    }

    /** The shape the game starts in and returns to after a game over (food aside). */
    ghost predicate InitialShape()
      reads this
    {
      snake == [Start] && direction == Right && score == 0 && !gameOver
    }

    /**
     * A tick runs to completion unless it eats the food with no free cell left
     * for the next food, where the source's sampling loop never returns.
     */
    ghost predicate TickFinishes()
      reads this
      requires |snake| > 0
    {
      gameOver || NextHead(snake[0], direction) != food || |snake| + 1 < GridSize * GridSize
    }

    /**
     * The state message of a broadcast: the five game fields, whose body and
     * food keep the game invariant.
     */
    function CurrentSnapshot(): (r: Snapshot)
      reads this
      ensures r.snake == snake && r.food == food && r.direction == direction
      ensures r.score == score && r.gameOver == gameOver
      ensures Valid() ==> r.food !in r.snake && |r.snake| == r.score + 1
    {
      Snapshot(snake, food, direction, score, gameOver)
    }

    /** Module initialisation plus the startup hook that places the first food. */
    constructor ()
      ensures Valid() && InitialShape()
      ensures lastChangeMs == 0 && clients == {}
    {
      var body := [Start];
      assert InGrid((0, 0)) && (0, 0) !in body;
      var firstFood := PlaceFood(body);
      snake := body;
      direction := Right;
      food := firstFood;
      score := 0;
      gameOver := false;
      lastChangeMs := 0;
      clients := {};
    }

    /** The game-over branch of the loop: back to the initial shape with fresh food. */
    method Reset()
      modifies this`snake, this`direction, this`food, this`score, this`gameOver
      ensures Valid() && InitialShape()
    {
      snake := [Start];
      direction := Right;
      assert InGrid((0, 0)) && (0, 0) !in snake;
      food := PlaceFood(snake);
      score := 0;
      gameOver := false;
    }

    /**
     * One pass of the simulation loop. After a game over it resets. Otherwise
     * the head moves one cell; landing anywhere on the pre-move body (the tail
     * cell included) ends the game; else the new head is prepended and either
     * the food is eaten (score up, new food) or the tail is dropped.
     */
    method Tick()
      requires Valid() && TickFinishes()
      modifies this`snake, this`direction, this`food, this`score, this`gameOver
      ensures Valid()
      ensures old(gameOver) ==> InitialShape()
      ensures !old(gameOver) ==> direction == old(direction)
      ensures !old(gameOver) && old(NextHead(snake[0], direction) in snake) ==>
        gameOver && snake == old(snake) && food == old(food) && score == old(score)
      ensures !old(gameOver) && old(NextHead(snake[0], direction) !in snake) ==>
        !gameOver && snake[0] == old(NextHead(snake[0], direction))
      ensures !old(gameOver) && old(NextHead(snake[0], direction) !in snake && NextHead(snake[0], direction) != food) ==>
        snake == [old(NextHead(snake[0], direction))] + old(snake[..|snake| - 1]) &&
        food == old(food) && score == old(score)
      ensures !old(gameOver) && old(NextHead(snake[0], direction) == food) ==>
        snake == [old(food)] + old(snake) && score == old(score) + 1 && food != old(food)
    {
      if gameOver {
        Reset();
        return;
      }
      var newHead := NextHead(snake[0], direction);
      if newHead in snake {
        gameOver := true;
        return;
      }
      snake := [newHead] + snake;
      if newHead == food {
        score := score + 1;
        FreeCellExists(snake);
        food := PlaceFood(snake);
      } else {
        snake := snake[..|snake| - 1];
      }
    }

    /**
     * A direction token received from a client at time `nowMs`. Accepted tokens
     * replace the direction and restart the debounce window; anything else
     * leaves the state untouched.
     */
    method SubmitDirection(token: string, nowMs: int) returns (accepted: bool)
      modifies this`direction, this`lastChangeMs
      ensures accepted == Accepts(old(direction), old(lastChangeMs), token, nowMs)
      ensures accepted ==> ParseDirection(token) == Some(direction) && lastChangeMs == nowMs
      ensures !accepted ==> direction == old(direction) && lastChangeMs == old(lastChangeMs)
      ensures direction != Opposite(old(direction))
    {
      accepted := false;
      if token == "" {
        return;
      }
      if nowMs - lastChangeMs > DebounceMs && token in Opposites {
        if Opposites[token] != Token(direction) {
          AcceptsMeans(direction, lastChangeMs, token, nowMs);
          direction := ParseDirection(token).value;
          lastChangeMs := nowMs;
          accepted := true;
        }
      }
    }

    /**
     * Sends the current snapshot to every client, then drops exactly those whose
     * send failed. `failing` stands for the transport: the clients whose send raises.
     */
    method Broadcast(failing: set<Client>) returns (sent: Snapshot, delivered: set<Client>)
      modifies this`clients
      ensures sent == CurrentSnapshot()
      ensures delivered == old(clients) - failing
      ensures clients == old(clients) - failing
    {
      sent := CurrentSnapshot();
      var toRemove;
      toRemove, delivered := CollectFailures(clients, failing);
      for i := 0 to |toRemove|
        invariant forall ws :: ws in clients <==> ws in old(clients) && ws !in toRemove[..i]
      {
        clients := clients - {toRemove[i]};
      }
      assert toRemove[..|toRemove|] == toRemove;
    }

    /** A new connection: registered, then sent a snapshot along with everyone else. */
    method Connect(ws: Client, failing: set<Client>) returns (sent: Snapshot, delivered: set<Client>)
      modifies this`clients
      ensures sent == CurrentSnapshot()
      ensures delivered == (old(clients) + {ws}) - failing
      ensures clients == (old(clients) + {ws}) - failing
      ensures ws !in failing ==> ws in delivered && ws in clients
    {
      clients := clients + {ws};
      sent, delivered := Broadcast(failing);
    }

    /** A connection that closed or errored leaves the registry; absent ones are ignored. */
    method Disconnect(ws: Client)
      modifies this`clients
      ensures clients == old(clients) - {ws}
    {
      clients := clients - {ws};
    }
  }

  /**
   * Two submissions that turn the snake into its reverse before it moves: a
   * quarter turn, then the reverse of the direction it had, each after its
   * debounce window. Nothing but the direction and the timestamp changes.
   */
  method ReverseBetweenTicks(game: SnakeGame, turn: Direction, t1: int, t2: int)
    returns (first: bool, second: bool)
    requires Perpendicular(game.direction, turn)
    requires t1 - game.lastChangeMs > DebounceMs && t2 - t1 > DebounceMs
    modifies game`direction, game`lastChangeMs
    ensures first && second
    ensures game.direction == Opposite(old(game.direction)) && game.lastChangeMs == t2
  {
    var start := game.direction;
    ReversalInTwoAcceptedSteps(start, turn, game.lastChangeMs, t1, t2);
    first := game.SubmitDirection(Token(turn), t1);
    second := game.SubmitDirection(Token(Opposite(start)), t2);
  }

  /**
   * The collision test looks at the whole pre-move body: with the head at
   * (1, 0) and the tail at (1, 1), moving down lands on the tail cell, which
   * the same tick would have vacated, and still ends the game.
   */
  lemma TailCellCollides()
    ensures var body := [(1, 0), (0, 0), (0, 1), (1, 1)];
      && Distinct(body) && AllInGrid(body)
      && NextHead(body[0], Down) in body
      && NextHead(body[0], Down) !in body[..|body| - 1]
  {
    var body := [(1, 0), (0, 0), (0, 1), (1, 1)];
    assert NextHead(body[0], Down) == body[3];
  }

  /**
   * The tail-cell quirk on a real tick: a valid game whose head is at (1, 0),
   * tail at (1, 1), heading down, ends in a game over with the body unchanged.
   */
  method TailChaseTick(game: SnakeGame)
    requires game.Valid() && !game.gameOver
    requires game.snake == [(1, 0), (0, 0), (0, 1), (1, 1)] && game.direction == Down
    modifies game`snake, game`direction, game`food, game`score, game`gameOver
    ensures game.gameOver && game.snake == old(game.snake) && game.score == old(game.score)
  {
    assert NextHead(game.snake[0], Down) == (1, 1);
    game.Tick();
  }

  /**
   * Why a reversal is fatal: if the head got where it is by moving in `d`
   * from the neck, a move in the opposite of `d` lands on the neck, which is
   * part of the body, so the next tick ends the game.
   */
  lemma ReversalHitsNeck(body: seq<Cell>, d: Direction)
    requires |body| >= 2 && AllInGrid(body)
    requires body[0] == NextHead(body[1], d)
    ensures NextHead(body[0], Opposite(d)) == body[1]
    ensures NextHead(body[0], Opposite(d)) in body
  {
    StepBackReturns(body[1], d);
  }
}
