# Game of Life on a terminal grid — Dafny model

The program runs a cellular automaton in a terminal. Two grids of characters
hold the generation on screen (CUR_GRID) and the generation to be shown next
(NEXT_GRID). Each grid has MAX_Y rows of MAX_X cells and is indexed `[y][x]`.
A cell is live when it holds `'x'`; any other character counts as dead.

The grids are filled at random: a draw `r` from `rand()` makes its cell live
when `r % 100 + 1 <= 35`. After that, each pass of the main loop does four
things:
1. It shows NEXT_GRID, copying it into CUR_GRID.
2. It computes the following generation from CUR_GRID into NEXT_GRID. A live
   cell survives with 2 or 3 live neighbours. A dead cell is born with 3 or
   6 live neighbours, which is not Conway's rule.
3. It stops, printing `LEVEL = ITERATIONS - iteration`, if the shown
   generation has no live cell.
4. It restarts from a fresh random grid, with the counter at 0, when the key
   pressed was a space.

Neighbours are the eight surrounding positions, and they do not wrap: a
position off the grid reads as dead.

The model has four modules:
- `Rules` holds the constants, the survive and born sets, the reading of a
  character as a symbol and the spawn decision.
- `Random` models the C generator. Class `Prng` returns successive values of
  a fixed stream.
- `Life` holds class `Board`: the two grids as `array2<char>`, the neighbour
  count and the rule as functions, and the loops that fill, advance, show and
  scan the grids as methods over the arrays.
- `Driver` holds one pass of the main loop and the loop itself. The loop is
  driven by a finite sequence of keypresses.

The neighbour count is proved against an independent geometric definition:
the set of on-grid positions at Chebyshev distance 1 whose cell is live.
Each grid loop is proved against a predicate over the whole grid.

## Model

| member | source | states |
|---|---|---|
| Rules.IsBorn | Driver.cpp:382-385 | a count gives birth exactly when it is 3 or 6 (the BORN set of line 59) |
| Rules.IsSurvive | Driver.cpp:387-390 | a count lets a live cell survive exactly when it is 2 or 3 (the SURVIVE set of line 56) |
| Rules.Normalize | Driver.cpp:220 | reading a neighbour yields one of the two symbols, ALIVE_SYM exactly when the character was ALIVE_SYM |
| Rules.IsFilled | Driver.cpp:164 | the fill test `r % 100 + 1 <= SPAWN_PERC` on a non-negative draw; `SpawnRate` states its rate |
| Rules.FillSym | Driver.cpp:164-165 | a draw puts ALIVE_SYM into its cell exactly when `r % 100 + 1 <= SPAWN_PERC`, and DEAD_SYM otherwise |
| Rules.SpawnRate | Driver.cpp:36-37 | of any 100 consecutive draw values starting at a multiple of 100, exactly SPAWN_PERC (35) fill their cell |
| Random.Prng.constructor | Driver.cpp:124 | seeding fixes the stream of values, and no value has been drawn yet |
| Random.Prng.Rand | Driver.cpp:164 | each call returns the next value of the stream and advances the draw count by one |
| Life.Board.constructor | Driver.cpp:129-143 | the grids take the configured size when both dimensions are non-zero, else the terminal's (MAX_X from its rows, MAX_Y from its columns); they are MAX_Y by MAX_X, distinct and all '\0' |
| Life.Board.ValidCoorIndexesGrids | Driver.cpp:377-380 | isValidCoor accepts exactly the coordinates that index both grids |
| Life.Board.IsValidCoor | Driver.cpp:377-380 | the on-grid test: 0 <= x < MAX_X and 0 <= y < MAX_Y; `ValidCoorIndexesGrids` states what it guarantees |
| Life.Board.ReadCellFromTerminal | Driver.cpp:202-212 | on the grid the current cell is returned; off the grid the result is exactly DEAD_SYM, so a live result implies an on-grid live cell |
| Life.Board.GetNumNeighborsFromTerminal | Driver.cpp:214-267 | the count of neighbours of the requested kind is between 0 and 8 |
| Life.Board.Indicator | Driver.cpp:218-222 | one guarded increment adds at most 1, and adds 1 exactly when the position is on the grid and its cell is live for a live target, or not live for a dead target |
| Life.Board.Around | Driver.cpp:218-264 | the positions within one step in each axis, the cell itself excluded, are exactly the eight positions the count probes, and there are 8 of them |
| Life.Board.HitSize | Driver.cpp:218-222 | one guarded increment adds 1 exactly when its position is on the grid and of the requested kind |
| Life.Board.NeighborsAsUnion | Driver.cpp:214-267 | the on-grid neighbours of the requested kind are exactly the union of the eight positions' contributions |
| Life.Board.NeighborsWithinHits | Driver.cpp:214-267 | every on-grid neighbour of the requested kind is the contribution of one of the eight probed positions |
| Life.Board.HitInNeighbors | Driver.cpp:218-264 | each probed position's contribution lies in the neighbour set |
| Life.Board.EightAroundSize | Driver.cpp:214-267 | the eight positions are distinct, so their contributions add up in size |
| Life.Board.NeighborCountMatchesSet | Driver.cpp:214-267 | the count equals the size of the set of on-grid neighbours of the requested kind, with no double counting and no wrap-around |
| Life.Board.NeighborCountsPartition | Driver.cpp:214-267 | the live count and the non-live count add up to the number of on-grid neighbours |
| Life.Board.CornerNeighborBound | Driver.cpp:214-267 | a corner cell has at most 3 neighbours of either kind |
| Life.Board.EdgeNeighborBound | Driver.cpp:214-267 | a cell on an edge has at most 5 neighbours of either kind |
| Life.Board.IsAlive | Driver.cpp:269-292 | the next state is live exactly when an on-grid live cell has a live count of 2 or 3, or any other position has 3 or 6 |
| Life.Board.IsAliveFollowsRule | Driver.cpp:269-292 | the same rule stated with the size of the set of live on-grid neighbours in place of the count |
| Life.Board.LonelyCellDies | Driver.cpp:278-291 | a live cell with no live neighbour (a lone corner cell, say) is dead in the next generation |
| Life.Board.CrowdedDeadCellStaysDead | Driver.cpp:284-291 | a dead cell whose eight neighbours are all live stays dead |
| Life.Board.SixNeighborsGiveBirth | Driver.cpp:284-288 | a dead cell with exactly six live neighbours is born |
| Life.Board.SetCellInGrid | Driver.cpp:170-173 | NEXT_GRID gets the symbol at (x, y), and every other cell of it is unchanged |
| Life.Board.AdvanceGeneration | Driver.cpp:294-316 | every NEXT_GRID cell holds the rule's verdict on the CUR_GRID that was there before the call, and CUR_GRID is untouched |
| Life.Board.ReadCellFromGrid | Driver.cpp:175-178 | the NEXT_GRID cell at an on-grid (x, y); `PrintGridToTerminal` states what is done with it |
| Life.Board.PrintGridToTerminal | Driver.cpp:175-200 | CUR_GRID becomes NEXT_GRID with every non-live character written as DEAD_SYM, and NEXT_GRID is untouched |
| Life.Board.IsAllDead | Driver.cpp:339-352 | the result is true exactly when no cell of CUR_GRID is live |
| Life.Board.DrawIndexIsOneToOne | Driver.cpp:158-168 | in the column-by-column fill each cell takes its own draw, and every draw number is below MAX_X * MAX_Y |
| Life.Board.InitializeLife | Driver.cpp:158-168 | exactly MAX_X * MAX_Y values are drawn; cell (x, y) gets the fill symbol of draw number x * MAX_Y + y; CUR_GRID is untouched |
| Driver.Counter | Driver.cpp:76-105 | the counter after a run of passes is the length of the longest space-free tail of the keypresses |
| Driver.Pass | Driver.cpp:77-105 | one pass shows NEXT_GRID in CUR_GRID. It exits exactly when the shown generation has no live cell. Otherwise, on a space, the counter is 0 and NEXT_GRID is refilled from fresh draws. In every other case the counter goes up by one and NEXT_GRID holds the next generation |
| Driver.Run | Driver.cpp:71-107 | the counter never goes negative. An exit reports LEVEL = ITERATIONS - iteration with CUR_GRID all dead, where iteration is one more than the counter after some prefix of the keypresses. A run cut off from outside ends with the counter given by Counter |

## Left out

- Terminal output is not modelled: ncurses setup and teardown, `clear`, `move`, `printw`, `refresh` and the "Gen=" line (Driver.cpp:80-86, 115-127, 150-156). `PrintGridToTerminal` keeps only its copy into CUR_GRID.
- The final text output is not modelled: "ALL DEAD", the LEVEL line and the dump of both grids by `printGrid` (Driver.cpp:94-95, 354-375). The reported level is the `level` field of the outcome.
- The SIGINT handler (Driver.cpp:109-113) is not modelled. `Driver.Run` consumes a finite sequence of keypresses, and running out of them stands for the process being stopped from outside.
- `getch` returns a keypress, or ERR when no key is pressed before its 1 ms timeout. It is an input of `Driver.Pass`.
- `usleep` pacing and the `debug` logging (switched off by DEBUG) are not modelled.
- Seeding `srand(time(NULL))` is not modelled. The seed and the generator are abstracted into the stream of `Random.Prng`, and nothing is assumed about its values.
- `Driver.Run`: the counter is an unbounded integer. The source's 32-bit `int` would overflow only after about 2^31 passes without a space or an exit.
- `Driver.Run`: the level reported on exit is ITERATIONS - iteration, as the code computes it. It is negative with the unlimited setting (-1) and is not the generation count.
- `Driver.Run`: with ITERATIONS at -1 a counter that only counts up from 0 never stops the loop. No iteration-limit outcome is modelled.
- `Life.Board.SetCellInGrid` and `Life.Board.ReadCellFromGrid` require an on-grid position. The source indexes the vectors without a check, and every caller passes an on-grid position; no defensive no-op is modelled.
- The fill probability and the rule sets are the fixed constants of the source. Other settings (Conway's born set {3}, a fill probability of 0) are not modelled, and neither are the properties stated only for them.
