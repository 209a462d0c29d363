# 2048 move/merge engine

A Dafny model of the game engine of a 2048 sliding-tile puzzle, `src/hooks/useGame.ts`. The
engine keeps a 4×4 grid of tiles. Each tile has a value, an `isNew` hint and a `merged` hint.
It also holds a score, a best score and two end-of-game flags. Each arrow key is one `move`:

- every row or column slides toward the pressed side;
- equal neighbours fuse once per pass;
- each fusion adds its value to the score;
- if the board changed, a new 2 or 4 appears on an empty cell;
- a 2048 tile wins, and a full board with no equal neighbours loses.

The modules follow the file's own layers:

| file | module | models |
|---|---|---|
| `board.dfy` | `Board` | `TileData`, `GridType`, `GRID_SIZE`; tile counts and weighted totals used by the proofs |
| `primitives.dfy` | `Primitives` | `compress`, `merge` (an array pass, as in the source), `transpose`, `checkGameOver` (nested loops with early exits), `generateEmptyGrid` |
| `spawn.dfy` | `Spawn` | `getRandomEmptyCell` and `addRandomTile`, with the random draws passed in |
| `resolver.dfy` | `Resolver` | `getMovedGrid`: the four directions built from the left move |
| `session.dfy` | `Session` | the hook's state as `class Game`: `incScore`, `move`, `initGame` |
| `fixpoint.dfy` | `Fixpoint` | repeating one direction without spawning: the board settles within four moves |

Each `merge` reports its values to the score callback. The model returns them as a list, in
call order, beside the moved row or grid. `Game.Move` then passes them to `IncScore` one by one.

The first random draw picks an empty cell, `Math.floor(Math.random() * empty.length)`. It is
modelled as a parameter `choice: nat`: the chosen cell is `empty[choice % |empty|]`, so every
empty cell can be chosen. The second draw, `Math.random() < 0.9 ? 2 : 4`, is a parameter
`four: bool`.

The no-op test `JSON.stringify(next) !== JSON.stringify(grid)` is modelled as equality of the
whole tiles, hints included. `Resolver.MovedGridNoOp` proves that this equality coincides with
equality of the values alone, for every direction.

Two details of the code shape the model:

- **Hints.** The `isNew`/`merged` hints live inside the tiles, as in the code.
  `addRandomTile` clears every `merged` hint before placing the new tile
  (src/hooks/useGame.ts:32-34), and every grid that `move` and `initGame` store has gone through it
  (src/hooks/useGame.ts:131-132, 149). So no stored tile is ever flagged merged: the `Unmerged`
  part of `Session.Consistent`, kept by `Session.StepSpec` and `Session.RestartSpec`, states this.
  The merge pulse that the tile view shows for a merged tile is therefore never displayed.
- **Best score.** Each new score is compared with the `highScore` the callback captured before
  the move, which is stale once the first merge of the move has raised the best score.
  `Session.Game.IncScore` takes that captured value as a parameter. `Session.Game.AddGains`
  proves that the move still ends at max(old best, new score), because every reported value is
  positive.

`Session.Step` and `Session.Restarted` state what `move` and `initGame` do to the whole state
as pure functions. The class `Session.Game` updates its fields step by step, as the hook does,
and is proved to agree with them.

## Model

| member | source | states |
|---|---|---|
| Primitives.Compress | src/hooks/useGame.ts:43-46 | the result has 4 cells; its tiles are exactly the input's tiles in their original order, in the first cells; every later cell is empty |
| Primitives.CompressIdempotent | src/hooks/useGame.ts:43-46 | compressing twice is compressing once |
| Primitives.CompressPacked | src/hooks/useGame.ts:43-46 | a row whose tiles already come first is returned unchanged |
| Primitives.CompressFrom | src/hooks/useGame.ts:44-45 | every tile of the result is one of the input's tiles |
| Primitives.CompressTotal | src/hooks/useGame.ts:43-46 | compress keeps every per-cell total (tile count, value sum) |
| Primitives.Merge | src/hooks/useGame.ts:48-64 | the in-place pass over a copied array returns the specified merge: the fused row and the reported values in call order |
| Primitives.Merged | src/hooks/useGame.ts:48-64 | the merged row has 4 cells and is compressed |
| Primitives.SweepReportsIff | src/hooks/useGame.ts:53-62 | the callback is never called exactly when no two neighbouring tiles have equal values |
| Primitives.MergeCollapses | src/hooks/useGame.ts:53-63 | on a compressed row the resulting values equal an independent reference that fuses equal pairs from the left and never fuses a fused tile again |
| Primitives.MergeConserves | src/hooks/useGame.ts:56-60 | the sum of tile values is kept; tiles after + merges reported == tiles before |
| Primitives.MergeReportsMerged | src/hooks/useGame.ts:56-60 | on a row with no merged hints, the values reported are exactly the values of the tiles flagged merged, in order; their sum is the gain |
| Primitives.MergeQuiet | src/hooks/useGame.ts:53-63 | no report iff no equal neighbours; then a compressed row comes back unchanged |
| Primitives.MergeGood | src/hooks/useGame.ts:56-58 | tiles stay powers of two of at least 2; each reported value is at least 4 |
| Primitives.MergeExampleEqual | src/hooks/useGame.ts:53-62 | [2,2,2,2] gives [4m,4m,_,_] reporting 4 twice |
| Primitives.MergeExampleFused | src/hooks/useGame.ts:53-62 | [2,2,4,_] gives [4m,4,_,_] reporting 4 once: the fused tile is not fused again |
| Primitives.Reverse | src/hooks/useGame.ts:111 | `[...r].reverse()`: cell i of the result is cell n-1-i of the input |
| Primitives.ReverseInvolution | src/hooks/useGame.ts:111 | reversing twice gives the row back |
| Primitives.Transpose | src/hooks/useGame.ts:66-67 | the result is 4×4 and its cell (c, r) is the input's cell (r, c) |
| Primitives.TransposeInvolution | src/hooks/useGame.ts:66-67 | transposing twice gives the grid back |
| Primitives.TransposeTotal | src/hooks/useGame.ts:66-67 | transpose keeps every per-cell total |
| Primitives.CheckGameOver | src/hooks/useGame.ts:69-78 | the nested scan returns true exactly when every cell holds a tile and no tile equals its right or lower neighbour |
| Primitives.EmptyGrid | src/hooks/useGame.ts:17-20 | a 4×4 grid of empty cells |
| Resolver.SlideRows | src/hooks/useGame.ts:109 | `map` moves each row on its own: row i of the result is the move of row i |
| Resolver.MovedGrid | src/hooks/useGame.ts:102-123 | every direction yields a 4×4 grid |
| Resolver.MovedGridCells | src/hooks/useGame.ts:108-119 | left moves each row; right is reverse, move, reverse; up moves each column; down is reverse, move, reverse on each column |
| Resolver.MovedGridConserves | src/hooks/useGame.ts:102-123 | a move keeps the sum of values; tiles after + merges == tiles before |
| Resolver.MovedGridScore | src/hooks/useGame.ts:102-123 | from a board with no merged hints, the reported values sum to the values of the tiles the move merged |
| Resolver.MovedGridGood | src/hooks/useGame.ts:102-123 | tiles stay powers of two; every reported value is at least 4 |
| Resolver.MovedGridNoOp | src/hooks/useGame.ts:130 | the moved grid shows the same values iff it equals the grid in full; an unchanged grid reports nothing |
| Resolver.MovedGridFull | src/hooks/useGame.ts:102-123 | a move that leaves no empty cell changed nothing, so an accepted move always leaves room for a new tile |
| Resolver.StillRowHasNoTwins | src/hooks/useGame.ts:53-62 | a full row that the move leaves as it is has no equal neighbours |
| Resolver.RowWithoutTwinsStill | src/hooks/useGame.ts:53-62 | a full row with no equal neighbours is left as it is by both row directions |
| Resolver.GameOverStuck | src/hooks/useGame.ts:69-78 | a lost board is full and all four directions leave it unchanged |
| Resolver.StuckGameOver | src/hooks/useGame.ts:69-78 | a full board that left and up leave unchanged is lost |
| Resolver.GameOverIffStuck | src/hooks/useGame.ts:69-78 | checkGameOver's test holds iff the board is full and no direction changes it |
| Resolver.CheckerboardIsOver | src/hooks/useGame.ts:69-78 | a 2/4 checkerboard is lost |
| Spawn.EmptyCellsMembers | src/hooks/useGame.ts:23-26 | the collected positions are exactly the empty cells |
| Spawn.GetRandomEmptyCell | src/hooks/useGame.ts:22-29 | the loops collect the empty cells in row-major order; null iff there is none, otherwise an empty cell picked by the draw |
| Spawn.Cleared | src/hooks/useGame.ts:33 | a copied cell shows the same value with both hints off |
| Spawn.ClearFlags | src/hooks/useGame.ts:32-34 | the copy has the grid's shape and every cell cleared |
| Spawn.ClearFlagsCount | src/hooks/useGame.ts:32-34 | clearing keeps the number of tiles |
| Spawn.Spawned | src/hooks/useGame.ts:31-41 | the result is a 4×4 grid |
| Spawn.AddRandomTile | src/hooks/useGame.ts:31-41 | the copy-and-write method computes the specified spawn |
| Spawn.SpawnedSpec | src/hooks/useGame.ts:31-41 | with an empty cell: exactly one previously empty cell gets a new 2 or 4 marked new, every other cell keeps its value with hints cleared, tile count +1; on a full board only the hints change; no tile is left flagged merged |
| Spawn.SpawnedGood | src/hooks/useGame.ts:38 | every tile stays a power of two of at least 2 |
| Spawn.CountBounds | src/hooks/useGame.ts:17-20 | a full board holds 16 tiles; the empty board none |
| Session.Game.constructor | src/hooks/useGame.ts:82-86 | the initial state (empty grid, score 0, stored best score, flags off) followed by initGame |
| Session.Game.IncScore | src/hooks/useGame.ts:88-100 | the score grows by v; the best score becomes the new score when it beats the best score the callback captured, and stays otherwise |
| Session.Game.AddGains | src/hooks/useGame.ts:88-100 | one incScore per reported value through the same callback: the score grows by their sum, never falls, and the best score ends at max(old best, new score) |
| Session.Game.InitGame | src/hooks/useGame.ts:145-150 | the fields after initGame are the restart of the fields before |
| Session.Game.Move | src/hooks/useGame.ts:125-143 | a finished game returns at once; otherwise the fields after the move are `Step` of the fields before, and consistency is kept |
| Session.Game.Finish | src/hooks/useGame.ts:129-140 | incScore calls, the no-op test and the spawn together give `Apply` of the fields before |
| Session.Game.Settle | src/hooks/useGame.ts:131-139 | after the spawn, the win test comes first: won iff a 2048 tile shows; lost iff not won and checkGameOver holds |
| Session.ScoreOfMove | src/hooks/useGame.ts:102-123 | a move's reports are each at least 4, empty when the grid is unchanged, never negative in sum, and sum to the merged values |
| Session.SpawnAfterMove | src/hooks/useGame.ts:130-131 | after an accepted move there was room: the spawn adds exactly one tile, keeps tiles powers of two and clears every merged hint |
| Session.StepSpec | src/hooks/useGame.ts:125-143 | a move keeps the state consistent, never lowers score or best score, ignores a finished game and a no-op move, and otherwise adds the merged values to the score with best == max(best, score) |
| Session.StepTiles | src/hooks/useGame.ts:129-131 | an accepted move leaves tiles before − merges + 1 |
| Session.StepEnds | src/hooks/useGame.ts:134-139 | a move that wins shows a 2048 tile and is not also lost; a move that loses leaves a board that no direction changes |
| Session.RestartSpec | src/hooks/useGame.ts:145-150 | restart: consistent, score 0, both flags off, best score untouched, exactly two tiles |
| Session.EmptyGridConsistent | src/hooks/useGame.ts:82-86 | the state before the first initGame is consistent |
| Session.SpawnedStart | src/hooks/useGame.ts:149 | the two spawns on an empty board leave exactly two tiles, all powers of two, none merged |
| Fixpoint.LineOfMoved | src/hooks/useGame.ts:108-119 | each line along the direction of a move is slid independently |
| Fixpoint.SettledStep | src/hooks/useGame.ts:53-63 | a settled line either stays or merges, and a merge needs two tiles |
| Fixpoint.StepShrinks | src/hooks/useGame.ts:56-59 | a settled line that still changes loses at least one tile |
| Fixpoint.StillBoard | src/hooks/useGame.ts:102-123 | a board whose lines are settled and either still or down to one tile is left as it is |
| Fixpoint.RepeatSettles | src/hooks/useGame.ts:102-123 | when each moving line holds at most k+1 tiles, k more moves reach a board the next move leaves as is |
| Fixpoint.RepeatReachesFixpoint | src/hooks/useGame.ts:102-123 | after four moves in one direction, with no tile added, a fifth changes nothing |

## Left out

- The React wiring is not modelled: `useState`, `useCallback`, `useEffect` and the keydown listener (src/hooks/useGame.ts:152-169). `Game`'s methods are called directly, and the initial `initGame` effect is part of the constructor.
- Reading and writing `localStorage` (src/hooks/useGame.ts:84, 94) is left out because it is foreign persistence. The constructor takes the stored best score as a `nat`. `Number(...) || 0` turns a missing or non-numeric entry into 0, which the `nat` covers. A stored negative number, a fraction or `Infinity` would pass through unchanged, and the model does not cover those.
- The random draws' distributions are left out because they are probabilistic (src/hooks/useGame.ts:28, 38): the uniform pick among empty cells and the 0.9/0.1 split between 2 and 4. The model covers every empty cell and both values, through the parameters `choice` and `four`.
- The view components (src/components/*.tsx, src/App.tsx) are rendering only.
- The no-op test compares whole tiles, not JSON text. The JSON text also depends on key order and on missing keys. A tile once merged and then cleared serialises as `value, merged, isNew`, while a cleared spawned tile serialises as `value, isNew, merged`. The outcome is still the same. A move that keeps every value keeps the same tile objects in the same places, because `compress`, `[...row]`, `reverse` and `transpose` copy references, so the texts are equal. A move that changes some value changes the text at that cell. The model's whole-tile equality agrees with both cases, because it coincides with value equality (`Resolver.MovedGridNoOp`).
- JavaScript numbers are doubles. The model uses unbounded integers, which agree with them for every score below 2^53.
- React batches state updates. `Move` applies its updates in order within one call, so it models the state seen after the batch.
