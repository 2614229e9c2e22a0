/** Known patterns under the rule engine: an oscillator, a still life, two opposite
    corners and a plus shape, on small grids with hard edges. Each pattern is drawn
    from a predicate saying which cells are live, so that its neighbour counts
    come down to arithmetic on coordinates. */
module Patterns {
  import opened GridModel
  import opened Rules

  /** The next generation of a grid whose every cell has been checked against the
      written-out neighbourhood. */
  lemma GenerationByCells(g: Grid, h: Grid, rows: nat, cols: nat)
    requires IsGrid(g, rows, cols) && IsGrid(h, rows, cols)
    requires forall i, j :: 0 <= i < rows && 0 <= j < cols ==> h[i][j] == NextCell(g[i][j], MooreSum(g, rows, cols, i, j))
    ensures Generation(g, rows, cols) == h
  {
    var next := Generation(g, rows, cols);
    forall i | 0 <= i < rows ensures next[i] == h[i] {
      forall j | 0 <= j < cols ensures next[i][j] == h[i][j] {
        LiveNeighboursIsMooreSum(g, rows, cols, i, j);
      }
    }
  }

  // The blinker

  /** Row 2, columns 1 to 3. */
  predicate InBlinkerH(i: int, j: int) { i == 2 && 1 <= j <= 3 }

  /** Column 2, rows 1 to 3. */
  predicate InBlinkerV(i: int, j: int) { j == 2 && 1 <= i <= 3 }

  /** A horizontal blinker in the middle of a 5 x 5 grid. */
  const BLINKER_H: Grid := seq(5, i => seq(5, j => if InBlinkerH(i, j) then 1 else 0))

  /** The same blinker, vertical. */
  const BLINKER_V: Grid := seq(5, i => seq(5, j => if InBlinkerV(i, j) then 1 else 0))

  /** The blinker grids hold exactly the cells of their shapes. */
  lemma BlinkerShapes()
    ensures IsGrid(BLINKER_H, 5, 5) && IsGrid(BLINKER_V, 5, 5)
    ensures forall i, j :: InBounds(5, 5, i, j) ==>
              BLINKER_H[i][j] == (if InBlinkerH(i, j) then 1 else 0) &&
              BLINKER_V[i][j] == (if InBlinkerV(i, j) then 1 else 0)
    ensures forall i, j :: LiveAt(BLINKER_H, 5, 5, i, j) == if InBounds(5, 5, i, j) && InBlinkerH(i, j) then 1 else 0
    ensures forall i, j :: LiveAt(BLINKER_V, 5, 5, i, j) == if InBounds(5, 5, i, j) && InBlinkerV(i, j) then 1 else 0
  {
  }

  /** Cell by cell, the horizontal blinker turns into the vertical one: the ends
      of the bar have one live neighbour and die, the centre has two and stays,
      and the cells above and below the centre have three and are born. */
  lemma BlinkerTurnsCells()
    ensures forall i, j :: 0 <= i < 5 && 0 <= j < 5 ==>
              BLINKER_V[i][j] == NextCell(BLINKER_H[i][j], MooreSum(BLINKER_H, 5, 5, i, j))
  {
    BlinkerShapes();
    forall i, j | 0 <= i < 5 && 0 <= j < 5
      ensures BLINKER_V[i][j] == NextCell(BLINKER_H[i][j], MooreSum(BLINKER_H, 5, 5, i, j))
    {
      // One case per row keeps each proof obligation small.
      if i == 0 {
      } else if i == 1 {
      } else if i == 2 {
      } else if i == 3 {
      } else {
      }
    }
  }

  /** Cell by cell, the vertical blinker turns back into the horizontal one. */
  lemma BlinkerReturnsCells()
    ensures forall i, j :: 0 <= i < 5 && 0 <= j < 5 ==>
              BLINKER_H[i][j] == NextCell(BLINKER_V[i][j], MooreSum(BLINKER_V, 5, 5, i, j))
  {
    BlinkerShapes();
    forall i, j | 0 <= i < 5 && 0 <= j < 5
      ensures BLINKER_H[i][j] == NextCell(BLINKER_V[i][j], MooreSum(BLINKER_V, 5, 5, i, j))
    {
      // One case per row keeps each proof obligation small.
      if i == 0 {
      } else if i == 1 {
      } else if i == 2 {
      } else if i == 3 {
      } else {
      }
    }
  }

  /** The blinker oscillates with period 2: horizontal to vertical and back. */
  lemma BlinkerOscillates()
    ensures Generation(BLINKER_H, 5, 5) == BLINKER_V
    ensures Generation(BLINKER_V, 5, 5) == BLINKER_H
  {
    BlinkerShapes();
    BlinkerTurnsCells();
    BlinkerReturnsCells();
    GenerationByCells(BLINKER_H, BLINKER_V, 5, 5);
    GenerationByCells(BLINKER_V, BLINKER_H, 5, 5);
  }

  // The block

  /** Rows 1 and 2, columns 1 and 2. */
  predicate InBlock(i: int, j: int) { 1 <= i <= 2 && 1 <= j <= 2 }

  /** A 2 x 2 block in the interior of a 4 x 4 grid. */
  const BLOCK: Grid := seq(4, i => seq(4, j => if InBlock(i, j) then 1 else 0))

  /** The block grid holds exactly the cells of its shape. */
  lemma BlockShape()
    ensures IsGrid(BLOCK, 4, 4)
    ensures forall i, j :: InBounds(4, 4, i, j) ==> BLOCK[i][j] == if InBlock(i, j) then 1 else 0
    ensures forall i, j :: LiveAt(BLOCK, 4, 4, i, j) == if InBounds(4, 4, i, j) && InBlock(i, j) then 1 else 0
  {
  }

  /** Cell by cell, each block cell has three live neighbours and survives, and no
      dead cell has exactly three. */
  lemma BlockCells()
    ensures forall i, j :: 0 <= i < 4 && 0 <= j < 4 ==> BLOCK[i][j] == NextCell(BLOCK[i][j], MooreSum(BLOCK, 4, 4, i, j))
  {
    BlockShape();
    forall i, j | 0 <= i < 4 && 0 <= j < 4
      ensures BLOCK[i][j] == NextCell(BLOCK[i][j], MooreSum(BLOCK, 4, 4, i, j))
    {
      // One case per row keeps each proof obligation small.
      if i == 0 {
      } else if i == 1 {
      } else if i == 2 {
      } else {
      }
    }
  }

  /** The block is a still life. */
  lemma BlockIsStill()
    ensures Generation(BLOCK, 4, 4) == BLOCK
  {
    BlockShape();
    BlockCells();
    GenerationByCells(BLOCK, BLOCK, 4, 4);
  }

  // Two opposite corners

  /** The corners (0, 0) and (2, 2) of a 3 x 3 grid. */
  predicate AtOppositeCorners(i: int, j: int) { (i == 0 && j == 0) || (i == 2 && j == 2) }

  /** Two live cells in opposite corners of a 3 x 3 grid. Were the edges to wrap
      around, each would be the other's neighbour. */
  const OPPOSITE_CORNERS: Grid := seq(3, i => seq(3, j => if AtOppositeCorners(i, j) then 1 else 0))

  /** The opposite-corners grid holds exactly its two cells. */
  lemma OppositeCornersShape()
    ensures IsGrid(OPPOSITE_CORNERS, 3, 3)
    ensures forall i, j :: InBounds(3, 3, i, j) ==> OPPOSITE_CORNERS[i][j] == if AtOppositeCorners(i, j) then 1 else 0
    ensures forall i, j :: LiveAt(OPPOSITE_CORNERS, 3, 3, i, j) == if InBounds(3, 3, i, j) && AtOppositeCorners(i, j) then 1 else 0
  {
  }

  /** Cell by cell, every cell of the opposite-corners grid is dead next. */
  lemma OppositeCornersCells()
    ensures MooreSum(OPPOSITE_CORNERS, 3, 3, 0, 0) == 0 && MooreSum(OPPOSITE_CORNERS, 3, 3, 2, 2) == 0
    ensures forall i, j :: 0 <= i < 3 && 0 <= j < 3 ==> NextCell(OPPOSITE_CORNERS[i][j], MooreSum(OPPOSITE_CORNERS, 3, 3, i, j)) == 0
  {
    OppositeCornersShape();
    forall i, j | 0 <= i < 3 && 0 <= j < 3
      ensures NextCell(OPPOSITE_CORNERS[i][j], MooreSum(OPPOSITE_CORNERS, 3, 3, i, j)) == 0
    {
      // One case per row keeps each proof obligation small.
      if i == 0 {
      } else if i == 1 {
      } else {
      }
    }
  }

  /** The edges do not wrap: neither corner counts the other, so each has no live
      neighbour and dies; the centre has two and stays dead, the edge cells at
      most one; the grid empties. */
  lemma OppositeCornersDie()
    ensures LiveNeighbours(OPPOSITE_CORNERS, 3, 3, 0, 0) == 0 && LiveNeighbours(OPPOSITE_CORNERS, 3, 3, 2, 2) == 0
    ensures Generation(OPPOSITE_CORNERS, 3, 3) == EmptyGrid(3, 3)
  {
    OppositeCornersShape();
    OppositeCornersCells();
    LiveNeighboursIsMooreSum(OPPOSITE_CORNERS, 3, 3, 0, 0);
    LiveNeighboursIsMooreSum(OPPOSITE_CORNERS, 3, 3, 2, 2);
    GenerationByCells(OPPOSITE_CORNERS, EmptyGrid(3, 3), 3, 3);
  }

  // A plus shape

  /** The middle row and the middle column of a 3 x 3 grid. */
  predicate InPlus(i: int, j: int) { i == 1 || j == 1 }

  /** Every cell of a 3 x 3 grid but the centre. */
  predicate InRing(i: int, j: int) { !(i == 1 && j == 1) }

  /** A plus shape filling the middle row and the middle column of a 3 x 3 grid. */
  const PLUS: Grid := seq(3, i => seq(3, j => if InPlus(i, j) then 1 else 0))

  /** The ring the plus leaves after one generation. */
  const RING: Grid := seq(3, i => seq(3, j => if InRing(i, j) then 1 else 0))

  /** The plus and ring grids hold exactly the cells of their shapes. */
  lemma PlusRingShapes()
    ensures IsGrid(PLUS, 3, 3) && IsGrid(RING, 3, 3)
    ensures forall i, j :: InBounds(3, 3, i, j) ==>
              PLUS[i][j] == (if InPlus(i, j) then 1 else 0) &&
              RING[i][j] == (if InRing(i, j) then 1 else 0)
    ensures forall i, j :: LiveAt(PLUS, 3, 3, i, j) == if InBounds(3, 3, i, j) && InPlus(i, j) then 1 else 0
  {
  }

  /** Cell by cell, the plus turns into the ring. */
  lemma PlusCells()
    ensures MooreSum(PLUS, 3, 3, 1, 1) == 4 && MooreSum(PLUS, 3, 3, 0, 0) == 3
    ensures forall i, j :: 0 <= i < 3 && 0 <= j < 3 ==> RING[i][j] == NextCell(PLUS[i][j], MooreSum(PLUS, 3, 3, i, j))
  {
    PlusRingShapes();
    forall i, j | 0 <= i < 3 && 0 <= j < 3
      ensures RING[i][j] == NextCell(PLUS[i][j], MooreSum(PLUS, 3, 3, i, j))
    {
      // One case per row keeps each proof obligation small.
      if i == 0 {
      } else if i == 1 {
      } else {
      }
    }
  }

  /** The centre of the plus has four live neighbours and dies of overpopulation;
      each arm has three and survives; each dead corner has all three of its
      in-bounds neighbours live and is born. */
  lemma PlusBecomesRing()
    ensures LiveNeighbours(PLUS, 3, 3, 1, 1) == 4 && LiveNeighbours(PLUS, 3, 3, 0, 0) == 3
    ensures Generation(PLUS, 3, 3) == RING
  {
    PlusRingShapes();
    PlusCells();
    LiveNeighboursIsMooreSum(PLUS, 3, 3, 1, 1);
    LiveNeighboursIsMooreSum(PLUS, 3, 3, 0, 0);
    GenerationByCells(PLUS, RING, 3, 3);
  }
}
