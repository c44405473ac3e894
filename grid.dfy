/**
 * The grid as the engine sees it (astar/astar.go): the tile-weight overlay,
 * the 4-neighbourhood of a tile, and the routes a search may follow.
 */
module Grid {
  import opened Points

  /** The weight the overlay gives tile `p`; a tile never filled weighs 0. */
  function TileWeight(tiles: map<Point, int>, p: Point): (w: int)
    ensures p in tiles ==> w == tiles[p]
    ensures p !in tiles ==> w == 0
  {
    if p in tiles then tiles[p] else 0
  }

  /** The overlay after `FillTile(p, w)`: `p` weighs `w`, every other tile is unchanged. */
  function Filled(tiles: map<Point, int>, p: Point, w: int): (r: map<Point, int>)
    ensures r.Keys == tiles.Keys + {p}
    ensures TileWeight(r, p) == w
    ensures forall q :: q in tiles && q != p ==> r[q] == tiles[q]
  {
    tiles[p := w]
  }

  /** The overlay after `ClearTile(p)`: `p` has no entry and weighs 0, every other tile is unchanged. */
  function Cleared(tiles: map<Point, int>, p: Point): (r: map<Point, int>)
    ensures r.Keys == tiles.Keys - {p}
    ensures TileWeight(r, p) == 0
    ensures forall q :: q in r ==> r[q] == tiles[q]
  {
    tiles - {p}
  }

  lemma FillIdempotent(tiles: map<Point, int>, p: Point, w: int)
    ensures Filled(Filled(tiles, p, w), p, w) == Filled(tiles, p, w)
  {
  }

  lemma ClearIdempotent(tiles: map<Point, int>, p: Point)
    ensures Cleared(Cleared(tiles, p), p) == Cleared(tiles, p)
  {
  }

  /** Clearing a tile undoes any fill of it: the overlay reads as if `p` had never been filled. */
  lemma ClearUndoesFill(tiles: map<Point, int>, p: Point, w: int)
    ensures Cleared(Filled(tiles, p, w), p) == Cleared(tiles, p)
    ensures forall q :: TileWeight(Cleared(Filled(tiles, p, w), p), q) == if q == p then 0 else TileWeight(tiles, q)
  {
  }

  predicate InGrid(rows: int, cols: int, p: Point)
  {
    0 <= p.row < rows && 0 <= p.col < cols
  }

  /** The direction of neighbour `q` seen from `p`: 0 up, 1 down, 2 left, 3 right. */
  function Direction(p: Point, q: Point): int
  {
    if q.row < p.row then 0 else if q.row > p.row then 1 else if q.col < p.col then 2 else 3
  }

  /**
   * The neighbours `getSurrounding` yields for `p` on a `rows` by `cols`
   * grid, in the order up, down, left, right. A step is taken away from
   * row 0 (column 0) only if the row (column) is positive, and towards the
   * far edge only if it is below `rows - 1` (`cols - 1`).
   */
  function Surrounding(rows: int, cols: int, p: Point): (s: seq<Point>)
    ensures forall q :: q in s <==> Neighbour(rows, cols, p, q)
  {
    (if p.row > 0 then [Point(p.row - 1, p.col)] else []) +
    (if p.row < rows - 1 then [Point(p.row + 1, p.col)] else []) +
    (if p.col > 0 then [Point(p.row, p.col - 1)] else []) +
    (if p.col < cols - 1 then [Point(p.row, p.col + 1)] else [])
  }

  /** `q` is one of the tiles `getSurrounding` yields for `p`. */
  predicate Neighbour(rows: int, cols: int, p: Point, q: Point)
  {
    (p.row > 0 && q == Point(p.row - 1, p.col)) ||
    (p.row < rows - 1 && q == Point(p.row + 1, p.col)) ||
    (p.col > 0 && q == Point(p.row, p.col - 1)) ||
    (p.col < cols - 1 && q == Point(p.row, p.col + 1))
  }

  /**
   * At most four distinct neighbours, in the order up, down, left, right,
   * each one step away; for a tile of the grid, exactly its neighbours
   * that lie in the grid.
   */
  lemma SurroundingShape(rows: int, cols: int, p: Point)
    ensures var s := Surrounding(rows, cols, p);
      |s| <= 4 &&
      (forall i, j :: 0 <= i < j < |s| ==> s[i] != s[j] && Direction(p, s[i]) < Direction(p, s[j])) &&
      (forall q :: q in s ==> Dist(p, q) == 1) &&
      (InGrid(rows, cols, p) ==> forall q :: q in s <==> InGrid(rows, cols, q) && Dist(p, q) == 1)
  {
  }

  /**
   * A radius that bounds every tile a search seeded from `target` can reach:
   * at least the grid's extent and the extent of every target.
   */
  function Bound(rows: int, cols: int, target: seq<Point>): (r: nat)
    ensures Abs(rows) <= r && Abs(cols) <= r
    ensures forall t :: t in target ==> InBox(r, t)
  {
    if target == [] then
      if Abs(rows) < Abs(cols) then Abs(cols) else Abs(rows)
    else
      var r0 := Bound(rows, cols, target[1..]);
      var t := target[0];
      var r1 := if r0 < Abs(t.row) then Abs(t.row) else r0;
      assert forall u :: u in target ==> u == t || u in target[1..];
      if r1 < Abs(t.col) then Abs(t.col) else r1
  }

  predicate InBox(r: nat, p: Point)
  {
    Abs(p.row) <= r && Abs(p.col) <= r
  }

  /** The tiles of the box of radius `r`, as a finite set. */
  ghost function BoxSet(r: nat): (b: set<Point>)
    ensures forall p :: InBox(r, p) ==> p in b
  {
    var b := set i: int, j: int | -(r as int) <= i <= r && -(r as int) <= j <= r :: Point(i, j);
    assert forall p :: InBox(r, p) ==> Point(p.row, p.col) in b;
    b
  }

  /** The grid, and any box that contains it, is closed under `getSurrounding`. */
  lemma SurroundingStays(rows: int, cols: int, r: nat, p: Point)
    requires Abs(rows) <= r && Abs(cols) <= r
    ensures InBox(r, p) ==> forall q :: Neighbour(rows, cols, p, q) ==> InBox(r, q)
    ensures InGrid(rows, cols, p) ==> forall q :: Neighbour(rows, cols, p, q) ==> InGrid(rows, cols, q)
  {
  }

  /** One move of a search: from `from` to a neighbour `to` that is not impassable. */
  ghost predicate Step(rows: int, cols: int, tiles: map<Point, int>, from: Point, to: Point)
  {
    Neighbour(rows, cols, from, to) && TileWeight(tiles, to) != -1
  }

  /**
   * A route the backward search can discover, listed in parent-link order:
   * it ends at a target, and each tile is a passable neighbour of the one
   * after it (the tile it was reached from). The first tile is where the
   * search stops; it is the only one whose own weight matters there.
   */
  ghost predicate Route(rows: int, cols: int, tiles: map<Point, int>, target: seq<Point>, w: seq<Point>)
  {
    |w| > 0 && w[|w| - 1] in target &&
    forall k :: 0 <= k < |w| - 1 ==> Step(rows, cols, tiles, w[k + 1], w[k])
  }
}
