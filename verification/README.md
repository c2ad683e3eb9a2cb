# Snakes and Ladders turn rules, in Dafny

This project models the game logic of a browser Snakes and Ladders game whose
whole implementation lives in `script.js`. The DOM, SVG drawing, audio, timers
and animation frames around that logic are left out. What remains is a small
deterministic state machine:

- **Board** (`board.dfy`): the boustrophedon numbering that `createBoardGrid`
  writes on the 10x10 grid (row 0 is the top DOM row), its inverse, and the
  grid-building loop.
- **Walk** (`walk.dfy`): the path `movePlayer` builds for a roll. Below 100 it
  steps forward. On 100 it steps back. Past 100 the token alternates 99, 100,
  99, … for the remaining units. The module gives the closed form of where a
  walk ends.
- **Entities** (`entities.dfy`): the `snakes` and `ladders` maps, their
  invariants, and `checkEntity`'s single lookup (snake first, then ladder,
  never chained).
- **Game** (`game.dfy`): the session state. It holds one tile per player,
  `currentPlayerIndex`, the `isAnimating` guard, the die value of a move in
  flight, and whether `victory` has fired. The transitions are:
  - `Start` for `startGame`;
  - `RollDice` for the guard and draw in `rollDice`;
  - `MovePlayer` for the walk, then either victory, or resolution followed by
    releasing the guard and `nextTurn`;
  - `Turn`, which is one whole roll;
  - `Play`, which is a run of rolls.

A roll is split into two transitions, `RollDice` then `MovePlayer`. This lets
the guard be exercised while a move is in flight: a `RollDice` on a state whose
guard is held returns that state unchanged.

The die value and the player count are parameters, with `1 <= roll <= 6` and
`1 <= n <= 4`. The upper bound of four comes from the four-entry colour table
at `script.js:12`.

Facts about `script.js` that the model makes explicit:

- **Overshoot.** The walk is `if (current < 100) current++; else current--;`
  per unit, so past 100 the token alternates between 99 and 100. From 97 a
  roll of 6 walks `[98,99,100,99,100,99]` and ends on 99 without winning. A
  roll of 5 walks `[98,99,100,99,100]`, ends on 100 and wins
  (`Walk.OvershootExamples`, `Game.PassingScenario`).
- **No roll starts on a snake head.** `checkEntity` moves every player who
  lands on a snake head, and no snake or ladder leads onto one, so no player
  ever stands on 95 or 98 when a roll begins (part of `Game.Valid`). A player
  on 94 who rolls 4 lands on the snake head 98 and slides to 28
  (`Game.SnakeAt98Scenario`). From 94 a roll of 3 ends on the plain tile 97.
- **Snake scenario.** The snake at 46 is reached with one die from 40 to 45
  only. The scenario lemma starts from 43 and rolls 3.
- **Row numbering.** In the loop of `createBoardGrid`, `r = 0` is the top DOM
  row, which holds tiles 91–100.
- **Player count.** `parseInt(countInput.value) || 2` (`script.js:108`) falls
  back to 2 when `parseInt` yields `NaN` or 0. Any other result is used as
  is. A negative count creates no players, and `updateUI` then fails on
  `p.name` for the missing `players[0]` (`script.js:290-291`). The model
  takes the count as a parameter in 1..4 (see "Left out").

## Model

| member | source | states |
|---|---|---|
| Board.TileAt | script.js:143-145 | every cell of the 10x10 grid gets a number in 1..100 that lies in its row's band `(9-r)*10+1 .. (10-r)*10` |
| Board.CellRoundTrip | script.js:143-145 | locating the number written on a cell gives back that cell, so the numbering is injective |
| Board.TileRoundTrip | script.js:143-145 | every tile 1..100 is written on exactly the cell computed by the inverse |
| Board.TileAtInjective | script.js:143-145 | two cells never carry the same number |
| Board.TileAtOnto | script.js:143-145 | every tile 1..100 appears on some cell, so the numbering is a bijection onto 1..100 |
| Board.RowHoldsExactly | script.js:143-145 | DOM row r holds exactly the tiles `(9-r)*10+1 .. (10-r)*10` (both directions) |
| Board.ConsecutiveTilesAdjacent | script.js:143-145 | tiles t and t+1 always sit on side-by-side cells (the zig-zag order) |
| Board.CreateBoardGrid | script.js:140-153 | the nested loops append 100 numbers, the one for cell (r, c) at position `10r+c`; each tile 1..100 sits at its cell's position |
| Walk.Step | script.js:199 | one unit moves to an adjacent tile: forward while below 100, back one tile on 100; a tile in 1..100 stays in 1..100 |
| Walk.WalkEnd | script.js:198-201 | the tile reached after k units lies at most k tiles from the start, and on the board when the start is |
| Walk.WalkPath | script.js:196-201 | the path has one entry per unit of the roll, and its last entry is where the walk ends |
| Walk.BuildPath | script.js:195-201 | the `for` loop builds exactly that path; from a tile up to 100 no entry exceeds 100 and the last entry follows the closed form |
| Walk.WalkEndClosedForm | script.js:198-201 | a walk of k units from p <= 100 ends on p+k when p+k <= 100, else on 100 if the overshoot is even and on 99 if it is odd |
| Walk.PathEntries | script.js:198-201 | entry i of the path is the tile reached after i+1 units |
| Walk.PathShape | script.js:198-201 | the path has `steps` entries; each differs by exactly 1 from the one before (starting from the player's tile); it steps back exactly when the previous tile is 100; every entry lies in 1..100 |
| Walk.EndsOnGoal | script.js:198-210 | the final tile is 100 (the victory test) exactly when p+k = 100 or the overshoot past 100 is even |
| Walk.OvershootExamples | script.js:198-210 | 97 + 5 walks 98,99,100,99,100 and ends on 100; 97 + 6 walks 98,99,100,99,100,99, passes 100 twice and ends on 99 |
| Entities.SnakeHeads | script.js:10 | the snake heads are exactly the twelve keys of the map |
| Entities.LadderFeet | script.js:11 | the ladder feet are exactly the ten keys of the map |
| Entities.SnakesDescend | script.js:10 | every snake leads from a tile in 1..100 to a lower tile in 1..99 |
| Entities.LaddersAscend | script.js:11 | every ladder leads from a tile to a higher tile, never to 100 |
| Entities.KeysDisjoint | script.js:10-11 | no tile is both a snake head and a ladder foot |
| Entities.SnakeTailsClear | script.js:10 | no snake's destination is itself a snake head |
| Entities.LadderTopsClear | script.js:10-11 | no ladder's destination is a snake head |
| Entities.GameMapsWellFormed | script.js:10-11 | the two maps satisfy all the invariants together |
| Entities.Hit | script.js:218-243 | the truthiness test `snakes[p.pos]` / `ladders[p.pos]`: it holds only for a key of the map, and exactly for the keys when no value is 0 |
| Entities.Classification | script.js:218-243 | every tile is a snake head, a ladder foot or plain, never two of these; the truthiness tests `snakes[pos]` / `ladders[pos]` are exactly key membership |
| Entities.Resolve | script.js:217-250 | on a snake head the result is the snake's destination (lower); on a ladder foot it is the ladder's destination (higher); otherwise the tile is unchanged; from 1..99 the result stays in 1..99; the result is never a snake head |
| Entities.NoChaining | script.js:217-250 | resolution applies once: snake 98→28 ends on 28 although 28 is the foot of ladder 28→77 |
| Game.Start | script.js:116-121 | n players all on tile 1, index 0, guard clear, no winner; the state satisfies the session invariant |
| Game.RollDice | script.js:165-174 | with the guard held the state is unchanged; otherwise the guard is taken and the die value recorded, and positions, index and winner are untouched |
| Game.MovePlayer | script.js:193-215 | only the mover's tile changes; the move wins exactly when the walk's closed-form end is 100, and then the index stays and the guard stays held; otherwise the mover ends on the resolved tile, the guard is cleared and the index moves to the next player |
| Game.Landing | script.js:196-204 | the tile the walk stops on (the last path entry) equals the closed form and lies in 1..100 |
| Game.NextIndex | script.js:284-287 | `(i+1) % n` stays below n, is 0 exactly after the last player and is `i+1` otherwise |
| Game.Turn | script.js:165-215 | a whole roll keeps the session invariant; it is ignored while the guard is held; otherwise it wins exactly when the walk ends on 100, and a non-winning roll releases the guard and passes the turn |
| Game.PlayKeepsValid | script.js:165-215 | every state reachable by rolls satisfies the invariant: exactly the winner stands on 100, every tile lies in 1..100, no player stands on a snake head, and the guard is held exactly while a move is in flight or after a win |
| Game.WonIsFinal | script.js:166-167 | after a win every later roll is a no-op, because the guard is never released |
| Game.Advance | script.js:284-287 | k successive turn changes keep the index among the players |
| Game.AdvanceIsMod | script.js:284-287 | k successive turn changes move the index to `(i+k) % n` |
| Game.FullRound | script.js:284-287 | n successive turn changes bring the index back to where it started |
| Game.TurnsAdvanceIndex | script.js:210-214 | a run of rolls that ends without a winner passes the turn once per roll and leaves the guard clear |
| Game.TurnCycle | script.js:210-214 | with n players, n consecutive non-winning rolls give the turn back to the player who started |
| Game.StartCycle | script.js:116-121 | from a fresh game, a round of n non-winning rolls returns the turn to player 0 |
| Game.PlainTileScenario | script.js:193-215 | two players, player 1 on 94 rolls 3: lands on plain 97 and the turn passes to player 2 |
| Game.SnakeAt98Scenario | script.js:217-241 | player 1 on 94 rolls 4: lands on the snake head 98 and ends on 28, and the turn passes |
| Game.LadderScenario | script.js:243-247 | from the start, a roll of 1 lands on the ladder at 2 and climbs to 23 |
| Game.SnakeScenario | script.js:217-241 | from 43 a roll of 3 lands on the snake at 46 and slides to 5 |
| Game.VictoryScenarios | script.js:210 | from 99 a roll of 1 wins and every later roll is ignored |
| Game.PassingScenario | script.js:198-210 | from 97 a roll of 6 passes 100 twice, ends on 99 and does not win |

## Left out

- Audio synthesis and sound effects (`initAudio`, the `sfx*` functions, the ambient hiss timer) are platform calls with random noise and no effect on game state.
- DOM and SVG rendering (`moveTokenVisual`, `updateUI`, `createPlayerToken`, `drawGraphics`, `getCenter`, dice rotation, messages, overlays) only draws the state.
- Floating-point animation (the Bézier swallow in `animateSwallow`, the snake sway loop, the confetti in `victory`) only changes pixels. Whether a snake has an animation record (`activeSnakes`) changes how the slide is drawn, not the tile the player ends on. The model writes the destination once where the code writes it twice.
- Timers, `await` delays and frames are left out. During the walk the code assigns each path tile to the player's position in turn, with a pause between tiles. The model applies the walk at once, because only the last tile matters to victory and resolution, and the guard blocks every roll in between.
- `Math.random` for the die and `parseInt(...) || 2` for the player count are replaced by parameters with `1 <= roll <= 6` and `1 <= n <= 4`. Counts above 4 leave players without a colour, and negative counts leave no player for `updateUI` to show; neither is modelled.
- Game.Start: models `startGame` on a freshly loaded page, where the guard is clear from its initialisation at `script.js:5`. `startGame` itself never resets `isAnimating`, so a restart after a win would keep the guard held. `script.js` hides the start screen and never shows it again, so that path is not modelled.
- A `rollDice` before `startGame` (with no players) is not modelled; the roll button is not shown before the game starts.
