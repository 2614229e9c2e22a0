/** The grid editor: the operations the user triggers directly on the grid. Each
    builds a new grid value and never changes the one it was given. */
module Editor {
  import opened GridModel

  /** `Math.random() > 0.75 ? 1 : 0`: the draw a cell must exceed to start live. */
  const LIVE_THRESHOLD: real := 0.75

  /** The flipped value of a cell, `cell ? 0 : 1`. */
  function Flip(cell: int): int {
    if Alive(cell) then 0 else 1
  }

  /** `toggleCellState(r, c)`: a copy of `g` made row by row and cell by cell, in
      which only the cell at (r, c) is flipped. Coordinates outside the grid match
      no cell, and the copy equals the original. */
  function Toggle(g: Grid, r: int, c: int): (t: Grid)
    ensures |t| == |g| && forall i :: 0 <= i < |g| ==> |t[i]| == |g[i]|
    ensures forall rows: nat, cols: nat :: IsGrid(g, rows, cols) ==> IsGrid(t, rows, cols)
    ensures forall i, j :: 0 <= i < |g| && 0 <= j < |g[i]| && (i != r || j != c) ==> t[i][j] == g[i][j]
    ensures 0 <= r < |g| && 0 <= c < |g[r]| ==>
              (Alive(t[r][c]) <==> !Alive(g[r][c])) && (t[r][c] == 0 || t[r][c] == 1)
    ensures !(0 <= r < |g| && 0 <= c < |g[r]|) ==> t == g
    ensures IsBinary(g) ==> IsBinary(t)
  {
    var t := seq(|g|, i requires 0 <= i < |g| =>
      seq(|g[i]|, j requires 0 <= j < |g[i]| => if i == r && j == c then Flip(g[i][j]) else g[i][j]));
    assert !(0 <= r < |g| && 0 <= c < |g[r]|) ==> forall i :: 0 <= i < |g| ==> t[i] == g[i];
    t
  }

  /** Toggling the same cell twice gives back the original 0/1 grid. */
  lemma ToggleTwice(g: Grid, r: int, c: int)
    requires IsBinary(g)
    ensures Toggle(Toggle(g, r, c), r, c) == g
  {
    var t := Toggle(Toggle(g, r, c), r, c);
    forall i | 0 <= i < |g| ensures t[i] == g[i] {
      if i == r && 0 <= c < |g[i]| {
        assert t[i][c] == g[i][c];
      }
    }
  }

  /** The Randomize handler: ROWS rows pushed one after another, each row built
      from COLS draws of `Math.random()`. The draws are supplied by the caller, row
      by row; a cell is live exactly when its draw exceeds LIVE_THRESHOLD. */
  method Randomize(rows: nat, cols: nat, draws: seq<seq<real>>) returns (grid: Grid)
    requires |draws| == rows && forall i :: 0 <= i < |draws| ==> |draws[i]| == cols
    ensures IsGrid(grid, rows, cols) && IsBinary(grid)
    ensures forall i, j :: 0 <= i < rows && 0 <= j < cols ==> (grid[i][j] == 1 <==> draws[i][j] > LIVE_THRESHOLD)
  {
    grid := [];
    for i := 0 to rows
      invariant IsGrid(grid, i, cols) && IsBinary(grid)
      invariant forall k, j :: 0 <= k < i && 0 <= j < cols ==> (grid[k][j] == 1 <==> draws[k][j] > LIVE_THRESHOLD)
    {
      var row := seq(cols, j requires 0 <= j < cols => if draws[i][j] > LIVE_THRESHOLD then 1 else 0);
      grid := grid + [row];
    }
  }
}
