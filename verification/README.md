# Conway's Game of Life: the engine of `App.tsx`, modelled in Dafny

The application shows a grid of `ROWS x COLS` cells, each holding a JS number
(0 or 1). Besides a mouse-down flag and the cell size in pixels, which serve the
user interface only (see "## Left out"), it keeps three pieces of state:
- the grid;
- a playing flag;
- a speed, which is the delay in milliseconds between generations.

A tick (`runGameOfLife`) checks the playing flag. When playing, it replaces the
grid with its next generation and schedules itself again after `speed`
milliseconds. Buttons toggle a cell, fill the grid at random, clear it, change
the speed, and start or stop playback.

The model has six modules:

- `GridModel` (`grid.dfy`) has the grid type and the empty grid:
  - grids are `seq<seq<int>>`;
  - a cell is live when it is non-zero, as JS truthiness has it;
  - `IsGrid` fixes the shape and `IsBinary` says every cell is 0 or 1.
- `Topology` (`topology.dfy`) has the eight neighbour offsets, `DIRECTIONS`.
- `Rules` (`rules.dfy`) has the generation step. It comes in three forms:
  - the step as the source writes it: `Step` copies the grid into a 2-D array and walks it in nested loops, calling `CountLiveNeighbours`, which accumulates the count offset by offset;
  - the specification function `Generation`;
  - the textbook B3/S23 rule, `TextbookLives`, against which the source's folded rule is proved.
- `Editor` (`editor.dfy`) has toggle and randomize. Each builds a new grid value.
- `Scheduler` (`scheduler.dfy`) has the `Session` class, holding `playing`, `speed` and `grid`. Its methods are the tick, the play/pause button, the speed selector and the grid handlers.
- `Patterns` (`patterns.dfy`) runs known patterns through `Generation`:
  - a blinker oscillates;
  - a block is still;
  - two live cells in opposite corners die, because the edges do not wrap;
  - a plus turns into a ring.

`ROWS`, `COLS`, `DIRECTIONS` and `createEmptyGrid` come from
`src/utils/utils`, which is not part of this model. They are modelled from their
use:
- the dimensions are parameters `rows` and `cols`, positive where a session is built;
- `DIRECTIONS` lists the eight offsets with each component in {-1, 0, 1}, except (0, 0), row by row. `Rules.CountOverPermutation` shows that any other order gives the same counts;
- `EmptyGrid` is the all-zero grid.

## Model

| member | source | states |
|---|---|---|
| GridModel.EmptyGrid | src/App.tsx:169 | The empty grid has `rows x cols` cells, all dead and all 0/1. |
| Topology.DirectionsAreTheMooreNeighbourhood | src/App.tsx:57 | The offset list has eight entries, all distinct. An offset is in it exactly when both components are in {-1, 0, 1} and not both zero. |
| Rules.CountOver | src/App.tsx:57-69 | The running count after visiting a list of offsets is at most the number of offsets visited. |
| Rules.LiveNeighbours | src/App.tsx:54-69 | The count over `DIRECTIONS` is at most 8. Which cells it counts is stated by `LiveNeighboursIsMooreSum`, the next row. |
| Rules.LiveNeighboursIsMooreSum | src/App.tsx:57-69 | Counting over `DIRECTIONS` equals the sum over the eight surrounding cells written out one by one. Positions outside `[0, rows) x [0, cols)` count as dead. |
| Rules.NeighbourBounds | src/App.tsx:57-68 | A cell's live-neighbour count is at most 8, at most 5 on an edge and at most 3 in a corner. |
| Rules.CountOverAppend | src/App.tsx:57-69 | Counting over a concatenation of offset lists gives the sum of the two counts. |
| Rules.CountOverPermutation | src/App.tsx:57-69 | Two offset lists with the same elements, in any order, give the same count. |
| Rules.NextCell | src/App.tsx:73-79 | The folded rule makes a cell live exactly when the textbook rule does. Under the textbook rule, a live cell lives on with 2 or 3 neighbours and a dead cell is born with exactly 3. The folded rule also keeps cells in {0, 1}. |
| Rules.Generation | src/App.tsx:49-83 | The next grid has the same `rows x cols` shape and is 0/1 when the current one is. Each of its cells is live exactly when the textbook rule says so for that cell's neighbour count. |
| Rules.GenerationRules | src/App.tsx:73-79 | Each of the source's three outcomes holds. A count below 2 or above 3 gives 0, whatever the cell was. A dead cell with exactly 3 gives 1. Otherwise the cell keeps its current value. |
| Rules.CountLiveNeighbours | src/App.tsx:54-69 | The counter accumulated in offset order equals the live-neighbour count and is at most 8. |
| Rules.Step | src/App.tsx:49-83 | The copy-and-overwrite loops over the array produce exactly `Generation` of the current grid. The current grid is a value and is never written. |
| Editor.Toggle | src/App.tsx:97-104 | The shape is kept. Every cell other than (r, c) is unchanged. Cell (r, c) flips between live and dead and becomes 0 or 1. Coordinates outside the grid give back an equal grid. A 0/1 grid stays 0/1. |
| Editor.ToggleTwice | src/App.tsx:97-102 | Toggling the same cell of a 0/1 grid twice gives back the original grid. |
| Editor.Randomize | src/App.tsx:155-160 | The result is a full `rows x cols` 0/1 grid. A cell is 1 exactly when its draw exceeds 0.75. |
| Scheduler.Session.constructor | src/App.tsx:11-14 | A new session is paused, with speed 100 and an empty grid. |
| Scheduler.Session.Tick | src/App.tsx:44-86 | When paused, nothing changes and nothing is scheduled. When playing, the grid becomes `Generation` of the old grid and the next tick is scheduled at the current speed. The playing flag and the speed are unchanged. |
| Scheduler.Session.PressPlayPause | src/App.tsx:144-150 | The button flips the playing flag. Going from paused to playing ticks at once: the grid advances one generation and the next tick is scheduled. Going from playing to paused leaves the grid alone and schedules nothing. |
| Scheduler.Session.SetSpeed | src/App.tsx:178 | The speed takes the new positive value. The grid and the playing flag are unchanged. |
| Scheduler.Session.ToggleCell | src/App.tsx:97-104 | The grid slot takes `Toggle` of the old grid. Playback state is unchanged. |
| Scheduler.Session.Randomize | src/App.tsx:155-160 | The grid slot takes a fresh 0/1 grid, live exactly where the draw exceeds 0.75. Playback state is unchanged. |
| Scheduler.Session.Clear | src/App.tsx:168-171 | The grid becomes the empty grid and playback stops. The speed is unchanged. |
| Patterns.GenerationByCells | src/App.tsx:49-83 | A grid equals the next generation once every cell agrees with the rule applied to the written-out neighbour sum. |
| Patterns.BlinkerOscillates | src/App.tsx:49-83 | On a 5 x 5 grid, a horizontal bar of three becomes a vertical bar, and the vertical bar becomes the horizontal one again. |
| Patterns.BlockIsStill | src/App.tsx:49-83 | A 2 x 2 block inside a 4 x 4 grid is its own next generation. |
| Patterns.OppositeCornersDie | src/App.tsx:57-79 | On a 3 x 3 grid with live cells only at (0, 0) and (2, 2), each corner counts 0 live neighbours, so neither sees the other across the edge, and the grid empties. Under wraparound each would count 1. |
| Patterns.PlusBecomesRing | src/App.tsx:57-79 | On a 3 x 3 grid, the centre of a plus has 4 neighbours and dies. A corner has 3 in-bounds live neighbours and is born. The plus becomes the ring of all cells but the centre. |

## Left out

- `getGridSize` and the resize listener (src/App.tsx:16-36) are not modelled. They compute floating-point pixel sizes from the browser window.
- `setTimeout` and React's `useState`/`useRef`/`useCallback` re-render semantics are left out.
  - A tick is a method call that returns the delay of the next tick, or none.
  - State updates take effect at once. In the source, `setIsPlaying` is seen through `playingRef` only after the next render. The play button sets the ref directly before ticking, which the model reflects.
- Several timer chains running at once are not modelled. Rapid play/pause clicks can leave more than one pending `setTimeout`, which is a concurrency artefact.
- `Math.random()` is not modelled as randomness. The caller supplies one draw per cell, row by row, and no probabilities are stated.
- The mouse-drag handlers (`handleMouseDown`, `handleMouseUp`, `handleMouseEnter`) and the JSX and Tailwind markup are not modelled. A drag over a cell reaches `toggleCellState` just as a click does, and that is modelled as `ToggleCell`.
- The presentational components `Button`, `PlayPauseButton` and `Select` are not modelled.
- `parseInt` of the speed selector's value is not modelled. The speed is taken to be a positive whole number of milliseconds, the values the selector offers.
- JS numbers are modelled as unbounded integers. NaN, fractions and `undefined` cells are not modelled.
- `Rules.LiveAt` reads a cell only when the position is inside the grid's own sequences as well as inside `[0, rows) x [0, cols)`. On a grid of the declared shape, which is all the source builds, the two checks agree.
- The randomize threshold is the constant 0.75 the code compares against, not a parameter.
