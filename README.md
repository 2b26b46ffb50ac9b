# ws-snake: the authoritative Snake game, modelled in Dafny

The server runs one shared snake on a 20 × 20 toroidal board. Every viewer
connected over a WebSocket gets the game state pushed to them. Any viewer can
send a direction to steer the snake. This project models the game logic of
`main.py` and proves properties of it:

- one tick of the simulation loop, including the reset after a game over;
- food placement on a free cell;
- direction arbitration: the `opposites` table, the 100 ms debounce, and the
  rule that the reverse of the current direction is refused;
- the two-phase broadcast, which tries every client and then drops the ones
  whose send failed.

Layout:

- `wrappers.dfy`: `Option`.
- `directions.dfy`: the `Direction` datatype, its wire tokens, the `opposites`
  table, and token parsing.
- `grid.dfy`: wrap-around arithmetic, the next head, distinctness, a count of
  the board's cells showing a free cell exists, and `PlaceFood`.
- `arbiter.dfy`: the acceptance test for a direction token, with lemmas about it.
- `subscribers.dfy`: the client type and the delivery pass of a broadcast.
- `game.dfy`: class `SnakeGame`. Its fields are the module-level globals of
  `main.py`. Its methods (`Tick`, `Reset`, `SubmitDirection`, `Broadcast`,
  `Connect`, `Disconnect`) update them in place.

`SnakeGame.Valid()` is the invariant that every operation keeps:

- the body is non-empty;
- the body is made of distinct board cells;
- the food is on a board cell that is not on the body;
- the body length is `score + 1`.

Behaviour kept as the code has it:

- The collision test in `Tick` looks at the whole body before the move,
  tail included. So moving onto the cell the tail is about to leave ends the
  game. `TailCellCollides` exhibits such a move, and `TailChaseTick` runs
  `Tick` on it.
- Arbitration compares a token with the current `direction` field, not with
  the direction the snake last moved in. So two accepted changes between two
  ticks can turn the snake into its reverse (`ReversalInTwoAcceptedSteps`,
  `ReverseBetweenTicks`).
  The next tick then runs into the neck (`ReversalHitsNeck`).
- The debounce test is strict. A change exactly 100 ms after the last
  accepted one is refused, because the test is `> 0.1` (main.py:252).
- The client registry is a set. Adding a connection that is already
  registered changes nothing, because `connected_clients` is a Python `set`.
- Python's `%` with a positive modulus floors, and Dafny's `%` is Euclidean.
  For a modulus of 20 the two agree, so `Wrap` uses `%` directly.

## Model

| member | source | states |
|---|---|---|
| `Directions.Token` | main.py:26 | every direction's token is non-empty and is a key of the `opposites` table |
| `Directions.Opposite` | main.py:26 | the reverse of a direction is a different direction, and the `opposites` table maps a direction's token to its reverse's token |
| `Directions.OppositeInvolutive` | main.py:26 | reversing twice gives back the original direction |
| `Directions.ParseDirection` | main.py:246-252 | a token names a direction exactly when it is a key of `opposites`; the empty token names none; a parsed direction prints back as the same token |
| `Directions.ParseToken` | main.py:26 | parsing a direction's token gives back that direction |
| `Directions.TokenOfParsed` | main.py:252-253 | for a table key, the `opposites` lookup equals the token of the parsed direction's reverse |
| `Grid.Wrap` | main.py:106-107 | the wrapped coordinate lies in [0, 20), is congruent to its input modulo 20, and on-board values are unchanged |
| `Grid.NextHead` | main.py:96-108 | the new head is on the board, and each coordinate is congruent, modulo 20, to the old head's coordinate plus the direction's delta |
| `Grid.Delta` | main.py:97-104 | one step changes exactly one coordinate, by one: left/right move x, up/down move y; left and up decrease it, right and down increase it |
| `Grid.WrapStepBack` | main.py:106-107 | on one axis, a step of +1 then -1 (or -1 then +1) through the wrap returns to the start |
| `Grid.StepBackReturns` | main.py:96-108 | moving in a direction and then in its opposite returns to the starting cell |
| `Grid.NextHeadMoves` | main.py:96-108 | a move always leaves the current cell |
| `Grid.FirstCellsExactly` | main.py:31-33 | the row-major enumeration of the first k cells holds exactly the board cells with index below k |
| `Grid.FirstCellsCount` | main.py:31-33 | the first k cells of the enumeration are k distinct cells, so the board has 400 cells |
| `Grid.DistinctOccupies` | main.py:34 | a body with no repeated cell occupies as many cells as its length |
| `Grid.FreeCellExists` | main.py:29-35 | a body of distinct board cells shorter than 400 leaves a free board cell, so food placement can succeed |
| `Grid.PlaceFood` | main.py:29-35 | the placed food is a board cell not on the snake; it requires that such a cell exists |
| `Arbiter.AcceptsMeans` | main.py:246-255 | a token is accepted iff more than 100 ms have passed, it names a direction, and that direction is not the reverse of the current one |
| `Arbiter.ReverseRejected` | main.py:253 | the exact reverse of the current direction is rejected at any time |
| `Arbiter.UnknownTokenRejected` | main.py:246-252 | empty or unknown tokens are ignored |
| `Arbiter.SameDirectionAccepted` | main.py:252-255 | re-sending the current direction after the window is accepted, which restarts the window |
| `Arbiter.DebounceWindow` | main.py:251-252 | within 100 ms of an accepted change (inclusive), no token is accepted |
| `Arbiter.Accepts` | main.py:247-253 | the acceptance test on a token: non-empty, more than 100 ms since the last change, a key of `opposites`, and its opposite is not the current direction; an accepted token names a direction other than the current one's reverse |
| `Arbiter.ReversalInTwoAcceptedSteps` | main.py:250-255 | from any direction c, a quarter turn e and then the reverse of c are both accepted when each comes more than 100 ms after the previous change |
| `Game.ReverseBetweenTicks` | main.py:250-255 | two `SubmitDirection` calls, a quarter turn and then the reverse of the starting direction, spaced more than 100 ms apart: both are accepted and the direction ends as the reverse of where it started |
| `Subscribers.CollectFailures` | main.py:72-78 | the delivery pass visits every client: the removal list holds exactly the clients whose send fails, each once; all other clients receive the snapshot |
| `Game.SnakeGame.constructor` | main.py:18-25 | the game starts valid, with snake [(10,10)], direction right, score 0, not over, last change at 0 and no clients; the startup hook (main.py:126-131) puts the food on a free cell |
| `Game.SnakeGame.Reset` | main.py:87-93 | after a game over: snake [(10,10)], direction right, score 0, not over, and fresh food on a free board cell |
| `Game.SnakeGame.Tick` | main.py:83-123 | keeps `Valid()`. After a game over it resets. Otherwise: hitting the pre-move body (tail included) sets game over and leaves snake, food, score and direction unchanged. A move that misses the food gives `[head] + snake[..n-1]` with food and score unchanged. Eating gives `[head] + snake`, score + 1, and new food elsewhere off the body |
| `Game.SnakeGame.SubmitDirection` | main.py:244-256 | accepted iff `Accepts` holds on the old direction and timestamp. On acceptance, the direction becomes the parsed token and the timestamp becomes now. Otherwise both are untouched. The new direction is never the reverse of the old one |
| `Game.SnakeGame.CurrentSnapshot` | main.py:65-71 | the broadcast message carries the snake, food, direction, score and game-over flag; in a valid state its food is off its snake and its snake is one cell longer than its score |
| `Game.SnakeGame.Broadcast` | main.py:64-80 | the current state is sent; the delivered clients and the new client set are both exactly the old set minus the failing clients |
| `Game.SnakeGame.Connect` | main.py:237-239 | the new connection is added and a broadcast follows; a newcomer whose send succeeds is delivered to and stays registered |
| `Game.SnakeGame.Disconnect` | main.py:262-263 | the connection is removed; a connection that is already absent is ignored |
| `Game.TailCellCollides` | main.py:109-120 | a concrete valid body whose next head is its tail cell: it is in the body, though not in the body without its tail |
| `Game.TailChaseTick` | main.py:109-113 | a valid game with head (1,0), tail (1,1), heading down: one `Tick` sets game over and leaves the body and score unchanged, though the tail would have moved away |
| `Game.ReversalHitsNeck` | main.py:109-110 | if the head came from the neck by moving in d, moving in the opposite of d lands on the neck, a body cell, so the tick ends the game |

## Left out

- Page rendering (`render_grid`, `index`, the CSS and the client script): user-interface string building with no game state logic.
- The WebSocket accept and receive loop, `json.loads`, and the JSON error handling. The model takes the `direction` value as a string token. Two payloads raise an error that nothing catches. A payload that parses but is not an object makes `msg.get` raise. A `direction` value that is a non-empty JSON array or object gets past `if not d` (main.py:247); once the 0.1 s test has passed, `d in opposites` (main.py:252) raises `TypeError` because the value is unhashable. Either error ends the connection handler, and its `finally` then unregisters the client. The model does not cover these paths.
- `send_json` and the snapshot's serialization: a send is a success or a failure given by the `failing` set.
- The sleeps (0.2 s per tick, 2 s after a game over, 1 s before the reset), `asyncio.create_task`, and the loop that calls a broadcast after each tick. One `Tick` is one atomic pass of the loop. The caller broadcasts separately.
- Interleaving between the simulation task and the connection handlers at `await` points. Every method is atomic. In the source, `broadcast_state` iterates `connected_clients` itself (main.py:73) and awaits inside the loop (main.py:75). A connect (main.py:238) or disconnect (main.py:263) during that await would change the set's size, and the loop's next step would raise `RuntimeError` outside the `try`. Raised from `move_snake`, that ends the simulation task; raised from the broadcast at main.py:239, it escapes before the `try` at main.py:241, so the client is never unregistered. This reading of the source is unverified: it depends on `send_json` actually yielding.
- `time.time()`: floating-point seconds become an integer millisecond clock passed in as `nowMs`. The threshold is 100 ms.
- `random.randint` and the rejection-sampling loop: `PlaceFood` chooses any free cell nondeterministically. It does not model the distribution or the number of draws.
- Game.SnakeGame.Tick: requires `TickFinishes()`, meaning the tick does not eat the food when no free cell would remain for the next food. In that case the source's sampling loop never returns, and the model does not describe a tick that never ends.
- The `if`/`elif` chain on `direction` has no branch for other strings. That case cannot happen here because `direction` is a `Direction` value, and the source only ever assigns it table keys or "right".
- `serve`, `fast_app`, the `PORT` environment variable, and the pixel layout constants: they are configuration and have no game logic.
