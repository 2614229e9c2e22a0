/** The grid model: a ROWS x COLS matrix of numeric cell states.

    A grid is the value held in the application's `grid` state (a `number[][]`).
    The dimensions ROWS and COLS are fixed positive constants of the deployment;
    the model takes them as the parameters `rows` and `cols` so that the same
    definitions cover every deployment (and the small grids used in the examples).
    A cell is a number; the engine reads it with JavaScript truthiness, so any
    non-zero value counts as live. */
module GridModel {

  type Grid = seq<seq<int>>

  /** `g` has exactly `rows` rows, each with exactly `cols` cells. */
  ghost predicate IsGrid(g: Grid, rows: nat, cols: nat) {
    |g| == rows && forall i :: 0 <= i < |g| ==> |g[i]| == cols
  }

  /** Every cell of `g` is 0 (dead) or 1 (live). */
  ghost predicate IsBinary(g: Grid) {
    forall i, j :: 0 <= i < |g| && 0 <= j < |g[i]| ==> g[i][j] == 0 || g[i][j] == 1
  }

  /** JavaScript truthiness of a cell value, as in `cell ? 1 : 0`. */
  predicate Alive(cell: int) {
    cell != 0
  }

  /** `createEmptyGrid()`: a fresh grid of the configured shape with every cell dead. */
  function EmptyGrid(rows: nat, cols: nat): (g: Grid)
    ensures IsGrid(g, rows, cols) && IsBinary(g)
    ensures forall i, j :: 0 <= i < rows && 0 <= j < cols ==> !Alive(g[i][j])
  {
    seq(rows, _ => seq(cols, _ => 0))
  }
}
