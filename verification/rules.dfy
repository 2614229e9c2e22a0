/** The rule engine: one generation step of Conway's Game of Life on a grid with
    hard edges, as computed by the `setGrid` updater inside `runGameOfLife`. */
module Rules {
  import opened GridModel
  import opened Topology

  /** (i, j) is a cell of a `rows` x `cols` grid. */
  predicate InBounds(rows: nat, cols: nat, i: int, j: int) {
    0 <= i < rows && 0 <= j < cols
  }

  /** 1 when (i, j) is an in-bounds live cell, 0 otherwise: positions beyond the
      boundary contribute nothing. The cell is only read once the position is known
      to be in the grid; on a `rows` x `cols` grid (`IsGrid`) the two checks agree. */
  function LiveAt(g: Grid, rows: nat, cols: nat, i: int, j: int): nat {
    if InBounds(rows, cols, i, j) && i < |g| && j < |g[i]| && Alive(g[i][j]) then 1 else 0
  }

  /** The running neighbour count after visiting the offsets `dirs` in order. */
  function CountOver(g: Grid, rows: nat, cols: nat, r: int, c: int, dirs: seq<Offset>): (n: nat)
    ensures n <= |dirs|
  {
    if dirs == [] then 0
    else
      var d := dirs[|dirs| - 1];
      CountOver(g, rows, cols, r, c, dirs[..|dirs| - 1]) + LiveAt(g, rows, cols, r + d.dr, c + d.dc)
  }

  /** The live-neighbour count of cell (r, c): the sum over DIRECTIONS, one per
      offset at most (`LiveNeighboursIsMooreSum` shows which cells it counts). */
  function LiveNeighbours(g: Grid, rows: nat, cols: nat, r: int, c: int): (n: nat)
    ensures n <= 8
  {
    CountOver(g, rows, cols, r, c, DIRECTIONS)
  }

  /** The Moore neighbourhood written out cell by cell, independently of the
      DIRECTIONS list: the eight cells around (r, c), those beyond the boundary
      counting as dead. */
  function MooreSum(g: Grid, rows: nat, cols: nat, r: int, c: int): nat {
    LiveAt(g, rows, cols, r - 1, c - 1) + LiveAt(g, rows, cols, r - 1, c) + LiveAt(g, rows, cols, r - 1, c + 1) +
    LiveAt(g, rows, cols, r, c - 1)                                       + LiveAt(g, rows, cols, r, c + 1) +
    LiveAt(g, rows, cols, r + 1, c - 1) + LiveAt(g, rows, cols, r + 1, c) + LiveAt(g, rows, cols, r + 1, c + 1)
  }

  /** Counting over DIRECTIONS is counting the live cells of the hard-edged Moore
      neighbourhood. */
  lemma LiveNeighboursIsMooreSum(g: Grid, rows: nat, cols: nat, r: int, c: int)
    ensures LiveNeighbours(g, rows, cols, r, c) == MooreSum(g, rows, cols, r, c)
  {
    var D := DIRECTIONS;
    assert D[..0] == [];
    CountOverSnoc(g, rows, cols, r, c, D, 0);
    CountOverSnoc(g, rows, cols, r, c, D, 1);
    CountOverSnoc(g, rows, cols, r, c, D, 2);
    CountOverSnoc(g, rows, cols, r, c, D, 3);
    CountOverSnoc(g, rows, cols, r, c, D, 4);
    CountOverSnoc(g, rows, cols, r, c, D, 5);
    CountOverSnoc(g, rows, cols, r, c, D, 6);
    CountOverSnoc(g, rows, cols, r, c, D, 7);
    assert D[..8] == D;
  }

  /** Extending the visited prefix by one offset adds that offset's contribution. */
  lemma CountOverSnoc(g: Grid, rows: nat, cols: nat, r: int, c: int, dirs: seq<Offset>, k: nat)
    requires k < |dirs|
    ensures CountOver(g, rows, cols, r, c, dirs[..k + 1])
         == CountOver(g, rows, cols, r, c, dirs[..k]) + LiveAt(g, rows, cols, r + dirs[k].dr, c + dirs[k].dc)
  {
    assert dirs[..k + 1][..k] == dirs[..k];
  }

  /** Neighbour counts are bounded by the in-bounds neighbours: at most 8 anywhere,
      at most 5 on an edge of the grid and at most 3 in a corner. */
  lemma NeighbourBounds(g: Grid, rows: nat, cols: nat, r: int, c: int)
    requires InBounds(rows, cols, r, c)
    ensures LiveNeighbours(g, rows, cols, r, c) <= 8
    ensures (r == 0 || r == rows - 1 || c == 0 || c == cols - 1) ==> LiveNeighbours(g, rows, cols, r, c) <= 5
    ensures (r == 0 || r == rows - 1) && (c == 0 || c == cols - 1) ==> LiveNeighbours(g, rows, cols, r, c) <= 3
  {
    LiveNeighboursIsMooreSum(g, rows, cols, r, c);
  }

  /** Counting over a concatenation of offset lists adds the two counts. */
  lemma {:induction false} CountOverAppend(g: Grid, rows: nat, cols: nat, r: int, c: int, a: seq<Offset>, b: seq<Offset>)
    ensures CountOver(g, rows, cols, r, c, a + b) == CountOver(g, rows, cols, r, c, a) + CountOver(g, rows, cols, r, c, b)
    decreases |b|
  {
    if b == [] {
      assert a + b == a;
    } else {
      var b' := b[..|b| - 1];
      assert (a + b)[..|a + b| - 1] == a + b';
      assert (a + b)[|a + b| - 1] == b[|b| - 1];
      CountOverAppend(g, rows, cols, r, c, a, b');
    }
  }

  /** The order in which the offsets are visited does not matter: any two lists with
      the same offsets (as a multiset) give the same count. */
  lemma {:induction false} CountOverPermutation(g: Grid, rows: nat, cols: nat, r: int, c: int, a: seq<Offset>, b: seq<Offset>)
    requires multiset(a) == multiset(b)
    ensures CountOver(g, rows, cols, r, c, a) == CountOver(g, rows, cols, r, c, b)
    decreases |a|
  {
    if a == [] {
      assert |b| == |multiset(b)| == 0;
    } else {
      var a', x := a[..|a| - 1], a[|a| - 1];
      var k := IndexOf(b, x);
      var left, right := b[..k], b[k + 1..];
      RemoveMatching(a, b, k);
      assert a == a' + [x];
      CountOverAppend(g, rows, cols, r, c, a', [x]);
      CountOverSplitAt(g, rows, cols, r, c, b, k);
      CountOverAppend(g, rows, cols, r, c, left, right);
      CountOverPermutation(g, rows, cols, r, c, a', left + right);
    }
  }

  /** Counting over `b` counts the part before index k, the offset at k and the
      part after it. */
  lemma CountOverSplitAt(g: Grid, rows: nat, cols: nat, r: int, c: int, b: seq<Offset>, k: nat)
    requires k < |b|
    ensures CountOver(g, rows, cols, r, c, b)
         == CountOver(g, rows, cols, r, c, b[..k]) + CountOver(g, rows, cols, r, c, [b[k]]) + CountOver(g, rows, cols, r, c, b[k + 1..])
  {
    RemoveAt(b, k);
    CountOverAppend(g, rows, cols, r, c, b[..k] + [b[k]], b[k + 1..]);
    CountOverAppend(g, rows, cols, r, c, b[..k], [b[k]]);
  }

  /** Taking the last element out of `a` and a matching occurrence out of `b`
      leaves equal multisets. */
  lemma RemoveMatching<T>(a: seq<T>, b: seq<T>, k: nat)
    requires multiset(a) == multiset(b) && a != [] && k < |b| && b[k] == a[|a| - 1]
    ensures multiset(a[..|a| - 1]) == multiset(b[..k] + b[k + 1..])
  {
    RemoveAt(b, k);
    assert a == a[..|a| - 1] + [a[|a| - 1]];
    assert multiset(a) == multiset(a[..|a| - 1]) + multiset{a[|a| - 1]};
  }

  /** An index at which `x` occurs in `b`. */
  lemma IndexOf<T>(b: seq<T>, x: T) returns (k: nat)
    requires x in multiset(b)
    ensures k < |b| && b[k] == x
  {
    k :| 0 <= k < |b| && b[k] == x;
  }

  /** Taking out the element at index k leaves the rest of the multiset. */
  lemma RemoveAt<T>(b: seq<T>, k: nat)
    requires k < |b|
    ensures b == b[..k] + [b[k]] + b[k + 1..]
    ensures multiset(b[..k] + b[k + 1..]) == multiset(b) - multiset{b[k]}
  {
    assert b == b[..k] + [b[k]] + b[k + 1..];
  }

  /** The textbook statement of Conway's rules (B3/S23): a live cell with fewer than
      two live neighbours dies, with two or three lives on, with more than three
      dies; a dead cell with exactly three becomes live. */
  predicate TextbookLives(alive: bool, n: nat) {
    if alive then !(n < 2) && !(n > 3)
    else n == 3
  }

  /** The folded rule set of the source: fewer than 2 or more than 3 live neighbours
      kill the cell; otherwise a dead cell with exactly 3 becomes live; otherwise
      the cell keeps its value (the copy is left as it was). */
  function NextCell(cell: int, n: nat): (r: int)
    ensures Alive(r) <==> TextbookLives(Alive(cell), n)
    ensures (cell == 0 || cell == 1) ==> r == 0 || r == 1
  {
    if n < 2 || n > 3 then 0
    else if cell == 0 && n == 3 then 1
    else cell
  }

  /** One generation: every cell of the next grid follows the folded rule applied to
      the cell's value and its live-neighbour count in the current grid. */
  function Generation(g: Grid, rows: nat, cols: nat): (h: Grid)
    requires IsGrid(g, rows, cols)
    ensures IsGrid(h, rows, cols)
    ensures IsBinary(g) ==> IsBinary(h)
    ensures forall i, j :: InBounds(rows, cols, i, j) ==>
              (Alive(h[i][j]) <==> TextbookLives(Alive(g[i][j]), LiveNeighbours(g, rows, cols, i, j)))
  {
    seq(rows, i requires 0 <= i < rows =>
      seq(cols, j requires 0 <= j < cols => NextCell(g[i][j], LiveNeighbours(g, rows, cols, i, j))))
  }

  /** The three outcomes of the source's branches, cell by cell. */
  lemma GenerationRules(g: Grid, rows: nat, cols: nat, i: int, j: int)
    requires IsGrid(g, rows, cols) && InBounds(rows, cols, i, j)
    ensures var n, h := LiveNeighbours(g, rows, cols, i, j), Generation(g, rows, cols);
      && ((n < 2 || n > 3) ==> h[i][j] == 0)
      && (g[i][j] == 0 && n == 3 ==> h[i][j] == 1)
      && (2 <= n <= 3 && !(g[i][j] == 0 && n == 3) ==> h[i][j] == g[i][j])
  {
  }

  /** The neighbour count of cell (row, col), accumulated offset by offset as the
      `DIRECTIONS.forEach` callback does. */
  method CountLiveNeighbours(current: Grid, rows: nat, cols: nat, row: int, col: int) returns (liveNeighbours: nat)
    requires IsGrid(current, rows, cols)
    ensures liveNeighbours == LiveNeighbours(current, rows, cols, row, col)
    ensures liveNeighbours <= 8
  {
    liveNeighbours := 0;
    for k := 0 to |DIRECTIONS|
      invariant liveNeighbours == CountOver(current, rows, cols, row, col, DIRECTIONS[..k])
    {
      var d := DIRECTIONS[k];
      var neighbourRow, neighbourCol := row + d.dr, col + d.dc;
      if 0 <= neighbourRow < rows && 0 <= neighbourCol < cols {
        liveNeighbours := liveNeighbours + if current[neighbourRow][neighbourCol] != 0 then 1 else 0;
      }
      assert DIRECTIONS[..k + 1][..k] == DIRECTIONS[..k];
    }
    assert DIRECTIONS[..|DIRECTIONS|] == DIRECTIONS;
  }

  /** The generation step: copy the current grid, then visit every cell in row-major
      order, count its live neighbours in the current grid and overwrite the copy
      where a rule fires. The current grid is a value and is only read. */
  method Step(currentGrid: Grid, rows: nat, cols: nat) returns (next: Grid)
    requires IsGrid(currentGrid, rows, cols)
    ensures next == Generation(currentGrid, rows, cols)
  {
    var newGrid := new int[rows, cols]((i, j) requires 0 <= i < rows && 0 <= j < cols => currentGrid[i][j]);
    for row := 0 to rows
      invariant forall i, j :: 0 <= i < row && 0 <= j < cols ==>
                  newGrid[i, j] == NextCell(currentGrid[i][j], LiveNeighbours(currentGrid, rows, cols, i, j))
      invariant forall i, j :: row <= i < rows && 0 <= j < cols ==> newGrid[i, j] == currentGrid[i][j]
    {
      for col := 0 to cols
        invariant forall i, j :: 0 <= i < row && 0 <= j < cols ==>
                    newGrid[i, j] == NextCell(currentGrid[i][j], LiveNeighbours(currentGrid, rows, cols, i, j))
        invariant forall j :: 0 <= j < col ==>
                    newGrid[row, j] == NextCell(currentGrid[row][j], LiveNeighbours(currentGrid, rows, cols, row, j))
        invariant forall i, j :: row <= i < rows && 0 <= j < cols && (i != row || col <= j) ==> newGrid[i, j] == currentGrid[i][j]
      {
        var liveNeighbours := CountLiveNeighbours(currentGrid, rows, cols, row, col);
        if liveNeighbours < 2 || liveNeighbours > 3 {
          newGrid[row, col] := 0;
        } else if currentGrid[row][col] == 0 && liveNeighbours == 3 {
          newGrid[row, col] := 1;
        }
      }
    }
    next := seq(rows, i requires 0 <= i < rows reads newGrid =>
              seq(cols, j requires 0 <= j < cols reads newGrid => newGrid[i, j]));
    forall i | 0 <= i < rows ensures next[i] == Generation(currentGrid, rows, cols)[i] {
    }
  }
}
