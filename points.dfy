/**
 * Grid coordinates and search nodes (the `Point` and `PathPoint` records of
 * astar/astar.go).
 */
module Points {
  import opened Wrappers

  /** A tile of the grid, addressed by row and column. */
  datatype Point = Point(row: int, col: int)

  function Abs(x: int): nat
  {
    if x < 0 then -x else x
  }

  /**
   * Manhattan distance: the grid is 4-connected, so no diagonal shortcut.
   * The source computes it through float64 and math.Abs; that detour is
   * exact only while |row difference|, |column difference| and their sum
   * stay within 2^53, and it is not modelled.
   */
  function Dist(p: Point, q: Point): (d: nat)
    ensures d == 0 <==> p == q
    ensures d == 1 <==> (p.row == q.row && Abs(p.col - q.col) == 1) || (p.col == q.col && Abs(p.row - q.row) == 1)
  {
    Abs(p.row - q.row) + Abs(p.col - q.col)
  }

  lemma DistSymmetric(p: Point, q: Point)
    ensures Dist(p, q) == Dist(q, p)
  {
  }

  lemma DistTriangle(p: Point, q: Point, s: Point)
    ensures Dist(p, s) <= Dist(p, q) + Dist(q, s)
  {
  }

  /**
   * A node of the search. `parent` is the index of the predecessor node in
   * the search's node arena (None for a seed). `fillWeight` is the sum of the
   * tile weights along the route so far, `distTraveled` the number of steps,
   * and `weight` the priority the strategy assigned.
   */
  datatype PathPoint = PathPoint(
    point: Point,
    parent: Option<nat>,
    weight: int,
    fillWeight: int,
    distTraveled: int)

  /** A seed node: no parent, all weights zero. */
  function Root(p: Point): (n: PathPoint)
    ensures n.point == p && n.parent.None?
    ensures n.weight == 0 && n.fillWeight == 0 && n.distTraveled == 0
  {
    PathPoint(p, None, 0, 0, 0)
  }
}
