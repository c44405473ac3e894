/**
 * The search engine (astar/astar.go) and the point-to-point constructor
 * (astar/configs.go). The engine owns the tile-weight overlay and runs a
 * best-first search backwards, from the targets towards the source.
 */
module AStar {
  import opened Wrappers
  import opened Points
  import opened Grid
  import opened Search
  import opened Configs

  /** The message of Go's run-time panic when a method is called on the nil `Config`. */
  const NilConfig := "runtime error: invalid memory address or nil pointer dereference"

  /**
   * What `FindPath` hands back: the index, in the returned node arena, of the
   * node it stopped at (the `*PathPoint` of the source); the absence of a
   * path (nil); or a panic.
   */
  datatype Outcome = Found(index: nat) | NoPath | Panic(msg: string)

  /** The candidate built for neighbour `p` of node `cur`, before the strategy prices it. */
  function Candidate(nodes: seq<PathPoint>, cur: nat, p: Point, fillWeight: int): (n: PathPoint)
    requires cur < |nodes|
    ensures n.point == p && n.parent == Some(cur) && n.weight == 0
    ensures n.fillWeight - nodes[cur].fillWeight == fillWeight
    ensures n.distTraveled == nodes[cur].distTraveled + 1
  {
    PathPoint(p, Some(cur), 0, nodes[cur].fillWeight + fillWeight, nodes[cur].distTraveled + 1)
  }

  /**
   * What handling neighbour `p` of the closed node `cur` does to the arena
   * and the frontier. A closed or impassable tile changes nothing. Otherwise
   * the candidate, priced by the point-to-point strategy, enters the
   * frontier when `p` is not open; when `p` is open and the candidate is
   * strictly cheaper, only the existing node's parent becomes `cur`.
   */
  ghost predicate VisitOutcome(tiles: map<Point, int>, source: seq<Point>, nodes: seq<PathPoint>,
                               open: map<Point, nat>, closed: map<Point, nat>, cur: nat, p: Point,
                               nodes': seq<PathPoint>, open': map<Point, nat>)
    requires |source| == 1 && cur < |nodes|
    requires forall q :: q in open ==> open[q] < |nodes|
  {
    if p in closed || TileWeight(tiles, p) == -1 then
      nodes' == nodes && open' == open
    else
      var fill := TileWeight(tiles, p);
      var cand := Candidate(nodes, cur, p, fill);
      var priced := cand.(weight := cand.fillWeight + cand.distTraveled + Dist(p, source[0]));
      if p !in open then
        open' == open[p := |nodes|] && nodes' == nodes + [priced]
      else
        open' == open &&
        nodes' == if priced.weight < nodes[open[p]].weight
                  then nodes[open[p] := nodes[open[p]].(parent := Some(cur))]
                  else nodes
  }

  class AStarBase {
    var config: Option<Strategy>
    var filledTiles: map<Point, int>
    const rows: int
    const cols: int

    /** `NewAStarBaseStruct`: an empty overlay and no strategy yet. */
    constructor (rows: int, cols: int)
      ensures this.rows == rows && this.cols == cols
      ensures config.None? && filledTiles == map[]
    {
      this.rows := rows;
      this.cols := cols;
      config := None;
      filledTiles := map[];
    }

    /**
     * `NewPointToPoint`: a fresh engine, with an empty overlay, whose
     * strategy is the point-to-point one.
     */
    constructor NewPointToPoint(rows: int, cols: int)
      ensures this.rows == rows && this.cols == cols
      ensures config == Some(Strategy.PointToPoint) && filledTiles == map[]
    {
      this.rows := rows;
      this.cols := cols;
      config := Some(Strategy.PointToPoint);
      filledTiles := map[];
    }

    method FillTile(p: Point, weight: int)
      modifies this`filledTiles
      ensures filledTiles == Filled(old(filledTiles), p, weight)
    {
      filledTiles := filledTiles[p := weight];
    }

    method ClearTile(p: Point)
      modifies this`filledTiles
      ensures filledTiles == Cleared(old(filledTiles), p)
    {
      filledTiles := filledTiles - {p};
    }

    /**
     * Some frontier node of least weight, or None for an empty frontier. The
     * source scans a Go map, whose order is unspecified; the model picks the
     * next key arbitrarily, so ties may go either way.
     */
    method GetMinWeight(open: map<Point, nat>, nodes: seq<PathPoint>) returns (min: Option<nat>)
      requires forall p :: p in open ==> open[p] < |nodes|
      ensures min.None? <==> open == map[]
      ensures min.Some? ==> min.value in open.Values
      ensures min.Some? ==> forall p :: p in open ==> nodes[min.value].weight <= nodes[open[p]].weight
    {
      min := None;
      var minWeight := 0;
      var rest := open.Keys;
      while rest != {}
        invariant rest <= open.Keys
        invariant min.None? <==> rest == open.Keys
        invariant min.Some? ==> min.value in open.Values && min.value < |nodes| && nodes[min.value].weight == minWeight
        invariant forall p :: p in open && p !in rest ==> minWeight <= nodes[open[p]].weight
        decreases rest
      {
        var p :| p in rest;
        if min.None? || nodes[open[p]].weight < minWeight {
          min := Some(open[p]);
          minWeight := nodes[open[p]].weight;
        }
        rest := rest - {p};
      }
      assert open.Keys == {} ==> open == map[];
    }

    /** The neighbours of `p`, in the order up, down, left, right. */
    method GetSurrounding(p: Point) returns (surrounding: seq<Point>)
      ensures surrounding == Surrounding(rows, cols, p)
    {
      surrounding := [];
      var row, col := p.row, p.col;
      if row > 0 {
        surrounding := surrounding + [Point(row - 1, col)];
      }
      if row < rows - 1 {
        surrounding := surrounding + [Point(row + 1, col)];
      }
      if col > 0 {
        surrounding := surrounding + [Point(row, col - 1)];
      }
      if col < cols - 1 {
        surrounding := surrounding + [Point(row, col + 1)];
      }
    }

    /**
     * One neighbour `p` of the node `cur` just closed. A closed tile is
     * skipped; otherwise the candidate is priced by the strategy and, if
     * allowed, either enters the frontier or, when strictly cheaper than the
     * frontier node already there, hands that node its parent. Nothing else
     * of the existing node changes.
     */
    method Visit(source: seq<Point>, nodes: seq<PathPoint>, open: map<Point, nat>, closed: map<Point, nat>,
                 cur: nat, p: Point)
      returns (nodes': seq<PathPoint>, open': map<Point, nat>)
      requires config.Some? && |source| == 1 && cur < |nodes|
      requires forall q :: q in open ==> open[q] < |nodes|
      ensures (forall q :: q in open ==> q in open') && |nodes| <= |nodes'|
      ensures p in open' || p in closed || TileWeight(filledTiles, p) == -1
      ensures VisitOutcome(filledTiles, source, nodes, open, closed, cur, p, nodes', open')
    {
      nodes', open' := nodes, open;
      if p in closed {
        return;
      }
      var fill := TileWeight(filledTiles, p);
      var cand := Candidate(nodes, cur, p, fill);
      var r := config.value.SetWeight(cand, fill, source);
      match r
      case Err(_) =>
        assert false;
      case Ok(priced) =>
        if !priced.allowed {
          return;
        }
        var candidate := priced.node;
        if p !in open {
          open' := open[p := |nodes|];
          nodes' := nodes + [candidate];
        } else {
          var existing := open[p];
          if candidate.weight < nodes[existing].weight {
            nodes' := nodes[existing := nodes[existing].(parent := candidate.parent)];
          }
        }
    }
  
    /**
     * The frontier's first state: one seed per target, keyed by its tile.
     * A target listed twice is seeded twice; the later seed replaces the
     * earlier one in the frontier, so the arena keeps an unreferenced copy.
     */
    static method Seed(target: seq<Point>) returns (nodes: seq<PathPoint>, open: map<Point, nat>)
      ensures |nodes| == |target|
      ensures forall j :: 0 <= j < |nodes| ==> nodes[j] == Root(target[j])
      ensures forall t :: t in open <==> t in target
      ensures Indexed(nodes, open) && |open.Keys| <= |nodes|
    {
      open := map[];
      nodes := [];
      for i := 0 to |target|
        invariant |nodes| == i
        invariant forall j :: 0 <= j < i ==> nodes[j] == Root(target[j])
        invariant forall j :: 0 <= j < i ==> target[j] in open
        invariant forall t :: t in open ==> t in target[..i]
        invariant Indexed(nodes, open)
        invariant |open.Keys| <= |nodes|
      {
        var p := target[i];
        assert open[p := |nodes|].Keys == open.Keys + {p};
        open := open[p := |nodes|];
        nodes := nodes + [Root(p)];
      }
    }

    /** Whatever `Visit` did, the bookkeeping still holds. */
    lemma VisitKeepsFrame(target: seq<Point>, source: seq<Point>, bound: nat, inGrid: bool,
                          nodes: seq<PathPoint>, open: map<Point, nat>, closed: map<Point, nat>,
                          closedAt: map<nat, nat>, step: nat, cur: nat, p: Point,
                          nodes': seq<PathPoint>, open': map<Point, nat>)
      requires |source| == 1
      requires Frame(rows, cols, filledTiles, target, source, bound, inGrid, nodes, open, closed, closedAt, step)
      requires cur < |nodes| && cur in closedAt && Neighbour(rows, cols, nodes[cur].point, p)
      requires InBox(bound, p) && (inGrid ==> InGrid(rows, cols, p))
      requires VisitOutcome(filledTiles, source, nodes, open, closed, cur, p, nodes', open')
      ensures Frame(rows, cols, filledTiles, target, source, bound, inGrid, nodes', open', closed, closedAt, step)
      ensures cur < |nodes'| && nodes'[cur] == nodes[cur]
    {
      if p !in closed && TileWeight(filledTiles, p) != -1 {
        if p !in open {
          InsertKeepsFrame(rows, cols, filledTiles, target, source, bound, inGrid, nodes, open, closed,
                           closedAt, step, cur, nodes'[|nodes|]);
        } else if nodes' != nodes {
          RelaxKeepsFrame(rows, cols, filledTiles, target, source, bound, inGrid, nodes, open, closed,
                          closedAt, step, cur, p);
        }
      }
    }

    /** `Visit` together with the bookkeeping it preserves: one iteration of the neighbour loop. */
    method VisitTracked(source: seq<Point>, target: seq<Point>, ghost bound: nat, ghost inGrid: bool,
                        nodes: seq<PathPoint>, open: map<Point, nat>, closed: map<Point, nat>,
                        ghost closedAt: map<nat, nat>, ghost step: nat, cur: nat, p: Point)
      returns (nodes': seq<PathPoint>, open': map<Point, nat>)
      requires config.Some? && |source| == 1
      requires Frame(rows, cols, filledTiles, target, source, bound, inGrid, nodes, open, closed, closedAt, step)
      requires cur < |nodes| && cur in closedAt && Neighbour(rows, cols, nodes[cur].point, p)
      requires InBox(bound, p) && (inGrid ==> InGrid(rows, cols, p))
      ensures Frame(rows, cols, filledTiles, target, source, bound, inGrid, nodes', open', closed, closedAt, step)
      ensures cur < |nodes'| && nodes'[cur] == nodes[cur]
      ensures forall q :: q in open ==> q in open'
      ensures p in open' || p in closed || TileWeight(filledTiles, p) == -1
    {
      nodes', open' := Visit(source, nodes, open, closed, cur, p);
      VisitKeepsFrame(target, source, bound, inGrid, nodes, open, closed, closedAt, step, cur, p, nodes', open');
    }

    /**
     * Visit, in order, every neighbour of the node `cur` just closed. The
     * frontier only grows, and afterwards every neighbour of every closed
     * tile is closed, open or impassable.
     */
    method ExpandNeighbours(source: seq<Point>, target: seq<Point>, ghost bound: nat, ghost inGrid: bool,
                            nodes: seq<PathPoint>, open: map<Point, nat>, closed: map<Point, nat>,
                            ghost closedAt: map<nat, nat>, ghost step: nat, cur: nat)
      returns (nodes': seq<PathPoint>, open': map<Point, nat>)
      requires config.Some? && |source| == 1
      requires Frame(rows, cols, filledTiles, target, source, bound, inGrid, nodes, open, closed, closedAt, step)
      requires Abs(rows) <= bound && Abs(cols) <= bound
      requires cur < |nodes| && cur in closedAt
      requires EnclosedExcept(rows, cols, filledTiles, open.Keys, closed.Keys, nodes[cur].point)
      ensures Frame(rows, cols, filledTiles, target, source, bound, inGrid, nodes', open', closed, closedAt, step)
      ensures Enclosed(rows, cols, filledTiles, open'.Keys, closed.Keys)
      ensures forall q :: q in open ==> q in open'
    {
      nodes', open' := nodes, open;
      var current := nodes[cur];
      var surrounding := GetSurrounding(current.point);
      SurroundingStays(rows, cols, bound, current.point);
      for k := 0 to |surrounding|
        invariant Frame(rows, cols, filledTiles, target, source, bound, inGrid, nodes', open', closed, closedAt, step)
        invariant cur < |nodes'| && nodes'[cur] == current
        invariant forall q :: q in open ==> q in open'
        invariant AllSettled(filledTiles, open'.Keys, closed.Keys, surrounding[..k])
      {
        ghost var openBefore := open';
        nodes', open' := VisitTracked(source, target, bound, inGrid, nodes', open', closed, closedAt, step,
                                      cur, surrounding[k]);
        SettledGrow(filledTiles, openBefore.Keys, open'.Keys, closed.Keys, surrounding, k);
      }
      assert surrounding[..|surrounding|] == surrounding;
      EncloseCurrent(rows, cols, filledTiles, open.Keys, open'.Keys, closed.Keys, current.point);
    }

    /**
     * One step of the search once the end test has failed: close the
     * frontier node `cur`, standing on tile `key`, and expand its neighbours.
     */
    method CloseAndExpand(source: seq<Point>, target: seq<Point>, ghost bound: nat, ghost inGrid: bool,
                          nodes: seq<PathPoint>, open: map<Point, nat>, closed: map<Point, nat>,
                          ghost closedAt: map<nat, nat>, ghost step: nat, cur: nat, ghost key: Point)
      returns (nodes': seq<PathPoint>, open': map<Point, nat>, closed': map<Point, nat>,
               ghost closedAt': map<nat, nat>, ghost step': nat)
      requires config.Some? && |source| == 1
      requires Frame(rows, cols, filledTiles, target, source, bound, inGrid, nodes, open, closed, closedAt, step)
      requires Enclosed(rows, cols, filledTiles, open.Keys, closed.Keys)
      requires Abs(rows) <= bound && Abs(cols) <= bound
      requires key in open && open[key] == cur && key != source[0]
      requires forall c :: c in closed ==> c != source[0]
      ensures Frame(rows, cols, filledTiles, target, source, bound, inGrid, nodes', open', closed', closedAt', step')
      ensures Enclosed(rows, cols, filledTiles, open'.Keys, closed'.Keys)
      ensures forall c :: c in closed' ==> c != source[0]
      ensures BoxSet(bound) - closed'.Keys < BoxSet(bound) - closed.Keys
    {
      var p := nodes[cur].point;
      assert p == key;
      open' := open - {p};
      closed' := closed[p := cur];
      closedAt' := closedAt[cur := step];
      step' := step + 1;
      CloseKeepsFrame(rows, cols, filledTiles, target, source, bound, inGrid, nodes, open, closed, closedAt, step, p);
      CloseKeepsEnclosure(rows, cols, filledTiles, open, closed, p, cur);
      CloseShrinks(bound, closed, p, cur);
      nodes', open' := ExpandNeighbours(source, target, bound, inGrid, nodes, open', closed', closedAt', step', cur);
    }

    /**
     * Search backwards from `target` until a node satisfies the strategy's
     * end test against `source`. The result indexes the returned node arena;
     * walking parent links from it ends at a seed within `|nodes|` links, and
     * the tiles met form a passable 4-connected route from `source[0]` back
     * to a target. `NoPath` is returned only when no such route exists.
     * With no strategy, or with a source list the point-to-point strategy
     * refuses, the first end test panics; with no targets it is never made.
     */
    method FindPath(source: seq<Point>, target: seq<Point>) returns (result: Outcome, nodes: seq<PathPoint>)
      ensures result.Panic? <==> |target| > 0 && (config.None? || |source| != 1)
      ensures result.Panic? ==> result.msg == if config.None? then NilConfig else InvalidEnd
      ensures result.Found? ==>
        result.index < |nodes| && |source| == 1 && nodes[result.index].point == source[0] &&
        nodes[Last(Chain(nodes, result.index, |nodes|))].parent.None? &&
        Route(rows, cols, filledTiles, target, Trace(nodes, result.index))
      ensures result.NoPath? ==> forall w :: Route(rows, cols, filledTiles, target, w) ==> w[0] !in source
      ensures Arena(rows, cols, filledTiles, target, source, nodes)
      ensures (forall t :: t in target ==> InGrid(rows, cols, t)) ==>
        forall i :: 0 <= i < |nodes| ==> InGrid(rows, cols, nodes[i].point)
    {
      var open: map<Point, nat> := map[];
      var closed: map<Point, nat> := map[];
      nodes := [];
      ghost var inGrid := forall t :: t in target ==> InGrid(rows, cols, t);
      ghost var bound := Bound(rows, cols, target);

      nodes, open := Seed(target);

      ghost var closedAt: map<nat, nat> := map[];
      ghost var step: nat := 0;
      SeedFrame(rows, cols, filledTiles, target, source, bound, inGrid, nodes, open);
      while true
        invariant Frame(rows, cols, filledTiles, target, source, bound, inGrid, nodes, open, closed, closedAt, step)
        invariant Enclosed(rows, cols, filledTiles, open.Keys, closed.Keys)
        // a node is closed only after an end test that did not panic and did not accept it
        invariant closed != map[] ==> config.Some? && |source| == 1 && forall c :: c in closed ==> c != source[0]
        decreases BoxSet(bound) - closed.Keys
      {
        var min := GetMinWeight(open, nodes);
        if min.None? {
          assert open.Keys == {};
          assert closed.Keys != {} ==> closed != map[];
          ExhaustedMeansUnreachable(rows, cols, filledTiles, target, source, closed.Keys);
          result := NoPath;
          return;
        }
        var cur := min.value;
        ghost var key :| key in open && open[key] == cur;
        assert |target| > 0;
        var current := nodes[cur];
        if config.None? {
          result := Panic(NilConfig);
          return;
        }
        var isEnd := config.value.IsEnd(current.point, source);
        if isEnd.Err? {
          result := Panic(isEnd.error);
          return;
        }
        if isEnd.value {
          FrontierTraceIsRoute(rows, cols, filledTiles, target, source, bound, inGrid, nodes, open, closed,
                               closedAt, step, key);
          result := Found(cur);
          return;
        }

        nodes, open, closed, closedAt, step :=
          CloseAndExpand(source, target, bound, inGrid, nodes, open, closed, closedAt, step, cur, key);
      }
    }
  }
}
