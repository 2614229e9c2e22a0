/** The neighbour topology: the eight relative offsets of the Moore neighbourhood. */
module Topology {

  /** One `[directionX, directionY]` pair: a row offset and a column offset. */
  datatype Offset = Offset(dr: int, dc: int)

  /** `DIRECTIONS`: every offset with both components in {-1, 0, 1} except (0, 0),
      listed row by row. The order is immaterial to the neighbour count
      (see `Rules.CountOverPermutation`). */
  const DIRECTIONS: seq<Offset> := [
    Offset(-1, -1), Offset(-1, 0), Offset(-1, 1),
    Offset(0, -1),                 Offset(0, 1),
    Offset(1, -1),  Offset(1, 0),  Offset(1, 1)
  ]

  /** An offset reaches an adjacent cell: each component in {-1, 0, 1}, not both zero. */
  predicate IsAdjacent(d: Offset) {
    -1 <= d.dr <= 1 && -1 <= d.dc <= 1 && d != Offset(0, 0)
  }

  /** DIRECTIONS lists each adjacent offset exactly once and nothing else. */
  lemma DirectionsAreTheMooreNeighbourhood()
    ensures |DIRECTIONS| == 8
    ensures forall d :: d in DIRECTIONS <==> IsAdjacent(d)
    ensures forall i, j :: 0 <= i < j < |DIRECTIONS| ==> DIRECTIONS[i] != DIRECTIONS[j]
  {
    forall d | IsAdjacent(d) ensures d in DIRECTIONS {
      assert d.dr == -1 || d.dr == 0 || d.dr == 1;
      assert d.dc == -1 || d.dc == 0 || d.dc == 1;
    }
  }
}
