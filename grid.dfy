/// Grid cells shared by both pathfinders: integer coordinates, the Manhattan
/// distance (`GetDistance` in EnemyAI and PlayerUnit) and 4-adjacency.
module Grid {

  /** A grid cell, the model's `Vector2Int` (A*) or `(x, y)` index pair (GridBehaviour). */
  datatype Cell = Cell(x: int, y: int)

  function Abs(n: int): nat
  {
    if n < 0 then -n else n
  }

  /** Manhattan distance: the sum of the absolute coordinate differences. */
  function Distance(a: Cell, b: Cell): (d: nat)
    ensures d == 0 <==> a == b
  {
    Abs(a.x - b.x) + Abs(a.y - b.y)
  }

  /** Two cells are 4-adjacent when they differ by one step along one axis. */
  predicate Adjacent(a: Cell, b: Cell)
  {
    Distance(a, b) == 1
  }

  lemma DistanceSymmetric(a: Cell, b: Cell)
    ensures Distance(a, b) == Distance(b, a)
  {
  }

  /** The four cells one step away, and nothing else, are adjacent. */
  lemma AdjacentCases(a: Cell, b: Cell)
    ensures Adjacent(a, b) <==>
      b == Cell(a.x - 1, a.y) || b == Cell(a.x + 1, a.y) ||
      b == Cell(a.x, a.y - 1) || b == Cell(a.x, a.y + 1)
  {
  }

  /** A step to an adjacent cell changes the distance to any cell by exactly one. */
  lemma DistanceStep(a: Cell, b: Cell, t: Cell)
    requires Adjacent(a, b)
    ensures Distance(b, t) == Distance(a, t) + 1 || Distance(b, t) == Distance(a, t) - 1
  {
  }
}
