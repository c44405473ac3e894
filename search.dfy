/**
 * The node arena of a search and what walking its parent links yields.
 * The engine keeps every node it creates in a sequence and links a node to
 * its parent by index; these definitions and lemmas are the vocabulary in
 * which the engine's contract is stated.
 */
module Search {
  import opened Wrappers
  import opened Points
  import opened Grid

  /**
   * The indices met walking parent links from node `i`, for at most `fuel`
   * links; it stops early at a node without a parent.
   */
  function Chain(nodes: seq<PathPoint>, i: nat, fuel: nat): (c: seq<nat>)
    requires i < |nodes|
    ensures 1 <= |c| <= fuel + 1 && c[0] == i
    ensures forall k :: 0 <= k < |c| ==> c[k] < |nodes|
    ensures forall k :: 0 <= k < |c| - 1 ==> nodes[c[k]].parent == Some(c[k + 1])
    ensures |c| <= fuel ==> nodes[c[|c| - 1]].parent.None? || nodes[c[|c| - 1]].parent.value >= |nodes|
    decreases fuel
  {
    if fuel == 0 || nodes[i].parent.None? || nodes[i].parent.value >= |nodes| then [i]
    else [i] + Chain(nodes, nodes[i].parent.value, fuel - 1)
  }

  function Last(c: seq<nat>): nat
    requires |c| > 0
  {
    c[|c| - 1]
  }

  /** The tiles of the path that starts at node `i`, following every parent link. */
  function Trace(nodes: seq<PathPoint>, i: nat): (w: seq<Point>)
    requires i < |nodes|
    ensures |w| == |Chain(nodes, i, |nodes|)| && w[0] == nodes[i].point
    ensures forall k :: 0 <= k < |w| ==> w[k] == nodes[Chain(nodes, i, |nodes|)[k]].point
  {
    var c := Chain(nodes, i, |nodes|);
    seq(|c|, k requires 0 <= k < |c| => nodes[c[k]].point)
  }

  /** A node as seeded from a target: all weights zero. */
  ghost predicate Seeded(n: PathPoint, target: seq<Point>)
  {
    n.weight == 0 && n.fillWeight == 0 && n.distTraveled == 0 && n.point in target
  }

  /** A node priced by the point-to-point strategy against the single source. */
  ghost predicate PricedFor(n: PathPoint, source: seq<Point>)
  {
    |source| == 1 && n.weight == n.fillWeight + n.distTraveled + Dist(n.point, source[0])
  }

  /**
   * What holds of every node a search creates: a node without a parent is a
   * seed; a node is a seed or carries the strategy's price (a seed whose
   * parent was relaxed keeps its zero weights); and a node's tile is a
   * passable neighbour of its parent's tile.
   */
  ghost predicate NodeOk(rows: int, cols: int, tiles: map<Point, int>, target: seq<Point>, source: seq<Point>,
                         nodes: seq<PathPoint>, i: nat)
    requires i < |nodes|
  {
    (nodes[i].parent.None? ==> Seeded(nodes[i], target)) &&
    (Seeded(nodes[i], target) || PricedFor(nodes[i], source)) &&
    (nodes[i].parent.Some? ==>
      nodes[i].parent.value < |nodes| &&
      Step(rows, cols, tiles, nodes[nodes[i].parent.value].point, nodes[i].point))
  }

  ghost predicate Arena(rows: int, cols: int, tiles: map<Point, int>, target: seq<Point>, source: seq<Point>,
                        nodes: seq<PathPoint>)
  {
    forall i :: 0 <= i < |nodes| ==> NodeOk(rows, cols, tiles, target, source, nodes, i)
  }

  /**
   * The order in which nodes were closed: a closed node's rank is the step
   * at which it was closed, every other node ranks `step`.
   */
  function RankOf(closedAt: map<nat, nat>, step: nat, i: nat): nat
  {
    if i in closedAt then closedAt[i] else step
  }

  /** The parent of node `i`, if any, is a closed node closed before `i`. */
  ghost predicate ParentRanked(nodes: seq<PathPoint>, closedAt: map<nat, nat>, step: nat, i: nat)
    requires i < |nodes|
  {
    nodes[i].parent.Some? ==>
      nodes[i].parent.value in closedAt && closedAt[nodes[i].parent.value] < RankOf(closedAt, step, i)
  }

  /** Every parent is a closed node closed before its child: parent links cannot cycle. */
  ghost predicate Ranked(nodes: seq<PathPoint>, closedAt: map<nat, nat>, step: nat)
  {
    (forall j :: j in closedAt ==> j < |nodes| && closedAt[j] < step) &&
    forall i :: 0 <= i < |nodes| ==> ParentRanked(nodes, closedAt, step, i)
  }

  /** With ranked parents, walking from `i` for more links than its rank reaches a node without a parent. */
  lemma {:induction false} ChainReachesRoot(nodes: seq<PathPoint>, closedAt: map<nat, nat>, step: nat, i: nat, fuel: nat)
    requires Ranked(nodes, closedAt, step) && i < |nodes| && RankOf(closedAt, step, i) < fuel
    ensures nodes[Last(Chain(nodes, i, fuel))].parent.None?
    decreases fuel
  {
    assert ParentRanked(nodes, closedAt, step, i);
    if nodes[i].parent.Some? {
      var j := nodes[i].parent.value;
      ChainReachesRoot(nodes, closedAt, step, j, fuel - 1);
    }
  }

  /** A fully walked parent chain of a well-formed arena is a route back to a target. */
  lemma TraceIsRoute(rows: int, cols: int, tiles: map<Point, int>, target: seq<Point>, source: seq<Point>,
                     nodes: seq<PathPoint>, i: nat)
    requires Arena(rows, cols, tiles, target, source, nodes) && i < |nodes|
    requires nodes[Last(Chain(nodes, i, |nodes|))].parent.None?
    ensures Route(rows, cols, tiles, target, Trace(nodes, i)) && Trace(nodes, i)[0] == nodes[i].point
  {
    var c := Chain(nodes, i, |nodes|);
    var w := Trace(nodes, i);
    assert NodeOk(rows, cols, tiles, target, source, nodes, Last(c));
    assert w[|w| - 1] == nodes[Last(c)].point;
    forall k | 0 <= k < |w| - 1
      ensures Step(rows, cols, tiles, w[k + 1], w[k])
    {
      var child, parent := c[k], c[k + 1];
      assert nodes[child].parent == Some(parent);
      assert NodeOk(rows, cols, tiles, target, source, nodes, child);
      assert w[k] == nodes[child].point && w[k + 1] == nodes[parent].point;
    }
  }

  /**
   * Every tile of `closed` whose neighbours are all in `closed`, in `open`
   * or impassable.
   */
  ghost predicate Enclosed(rows: int, cols: int, tiles: map<Point, int>, open: set<Point>, closed: set<Point>)
  {
    forall c, q :: c in closed && Neighbour(rows, cols, c, q) ==>
      q in closed || q in open || TileWeight(tiles, q) == -1
  }

  /**
   * Once the frontier is empty, the closed tiles hold every target and are
   * closed under passable steps, so a route never leaves them.
   */
  lemma {:induction false} RoutesStayClosed(rows: int, cols: int, tiles: map<Point, int>, target: seq<Point>,
                                            closed: set<Point>, w: seq<Point>)
    requires Enclosed(rows, cols, tiles, {}, closed)
    requires forall t :: t in target ==> t in closed
    requires Route(rows, cols, tiles, target, w)
    ensures forall k :: 0 <= k < |w| ==> w[k] in closed
    decreases |w|
  {
    if |w| > 1 {
      var rest := w[1..];
      assert Route(rows, cols, tiles, target, rest) by {
        forall k | 0 <= k < |rest| - 1
          ensures Step(rows, cols, tiles, rest[k + 1], rest[k])
        {
          assert rest[k + 1] == w[k + 2] && rest[k] == w[k + 1];
        }
      }
      RoutesStayClosed(rows, cols, tiles, target, closed, rest);
      assert w[1] == rest[0];
      assert Step(rows, cols, tiles, w[1], w[0]);
      forall k | 0 <= k < |w|
        ensures w[k] in closed
      {
        if k > 0 { assert w[k] == rest[k - 1]; }
      }
    }
  }

  /** Every entry of `m` indexes a node standing on the entry's own tile. */
  ghost predicate Indexed(nodes: seq<PathPoint>, m: map<Point, nat>)
  {
    forall p :: p in m ==> m[p] < |nodes| && nodes[m[p]].point == p
  }

  /**
   * The bookkeeping a search keeps between two of its steps: the open and
   * closed maps are keyed by their nodes' tiles and are disjoint; the closing
   * order ranks every parent before its child; every node is well formed and
   * lies in the box of radius `bound` (in the grid, when every target is);
   * every target is open or closed; the arena is empty when there
   * are no targets; and the arena holds at least one node
   * per open tile and per closing step.
   */
  ghost predicate Frame(rows: int, cols: int, tiles: map<Point, int>, target: seq<Point>, source: seq<Point>,
                        bound: nat, inGrid: bool, nodes: seq<PathPoint>, open: map<Point, nat>,
                        closed: map<Point, nat>, closedAt: map<nat, nat>, step: nat)
  {
    Indexed(nodes, open) && Indexed(nodes, closed) &&
    (forall p :: p in open ==> p !in closed) &&
    Ranked(nodes, closedAt, step) &&
    (forall j :: j in closedAt ==> nodes[j].point in closed && closed[nodes[j].point] == j) &&
    Arena(rows, cols, tiles, target, source, nodes) &&
    (forall j :: 0 <= j < |nodes| ==> InBox(bound, nodes[j].point)) &&
    (inGrid ==> forall j :: 0 <= j < |nodes| ==> InGrid(rows, cols, nodes[j].point)) &&
    (forall t :: t in target ==> t in open || t in closed) &&
    (|nodes| > 0 ==> |target| > 0) &&
    step + |open.Keys| <= |nodes|
  }

  /**
   * Walking parent links from any frontier node ends at a seed within the
   * arena's size, and the tiles met form a route back to a target.
   */
  lemma FrontierTraceIsRoute(rows: int, cols: int, tiles: map<Point, int>, target: seq<Point>, source: seq<Point>,
                             bound: nat, inGrid: bool, nodes: seq<PathPoint>, open: map<Point, nat>,
                             closed: map<Point, nat>, closedAt: map<nat, nat>, step: nat, p: Point)
    requires Frame(rows, cols, tiles, target, source, bound, inGrid, nodes, open, closed, closedAt, step)
    requires p in open
    ensures open[p] < |nodes| && nodes[open[p]].point == p
    ensures nodes[Last(Chain(nodes, open[p], |nodes|))].parent.None?
    ensures Route(rows, cols, tiles, target, Trace(nodes, open[p]))
  {
    var i := open[p];
    assert i !in closedAt;
    ChainReachesRoot(nodes, closedAt, step, i, |nodes|);
    TraceIsRoute(rows, cols, tiles, target, source, nodes, i);
  }

  /**
   * The seeded frontier, one root per target and nothing closed, meets the
   * bookkeeping, and no tile is closed yet to be enclosed.
   */
  lemma SeedFrame(rows: int, cols: int, tiles: map<Point, int>, target: seq<Point>, source: seq<Point>,
                  bound: nat, inGrid: bool, nodes: seq<PathPoint>, open: map<Point, nat>)
    requires |nodes| == |target| && forall j :: 0 <= j < |nodes| ==> nodes[j] == Root(target[j])
    requires forall t :: t in open <==> t in target
    requires Indexed(nodes, open) && |open.Keys| <= |nodes|
    requires forall t :: t in target ==> InBox(bound, t)
    requires inGrid ==> forall t :: t in target ==> InGrid(rows, cols, t)
    ensures Frame(rows, cols, tiles, target, source, bound, inGrid, nodes, open, map[], map[], 0)
    ensures Enclosed(rows, cols, tiles, open.Keys, {})
  {
    forall i | 0 <= i < |nodes|
      ensures NodeOk(rows, cols, tiles, target, source, nodes, i) && ParentRanked(nodes, map[], 0, i)
      ensures InBox(bound, nodes[i].point) && (inGrid ==> InGrid(rows, cols, nodes[i].point))
    {
      assert nodes[i].point == target[i];
    }
  }

  /** Closing the frontier node `open[p]` keeps the bookkeeping. */
  lemma CloseKeepsFrame(rows: int, cols: int, tiles: map<Point, int>, target: seq<Point>, source: seq<Point>,
                        bound: nat, inGrid: bool, nodes: seq<PathPoint>, open: map<Point, nat>,
                        closed: map<Point, nat>, closedAt: map<nat, nat>, step: nat, p: Point)
    requires Frame(rows, cols, tiles, target, source, bound, inGrid, nodes, open, closed, closedAt, step)
    requires p in open
    ensures open[p] !in closedAt
    ensures Frame(rows, cols, tiles, target, source, bound, inGrid, nodes, open - {p}, closed[p := open[p]],
                  closedAt[open[p] := step], step + 1)
  {
    var cur := open[p];
    assert (open - {p}).Keys == open.Keys - {p};
    CloseKeepsRanked(nodes, closedAt, step, cur, closedAt[cur := step], step + 1);
  }

  /** Giving the unclosed node `cur` the current step as its rank keeps the ranking. */
  lemma CloseKeepsRanked(nodes: seq<PathPoint>, closedAt: map<nat, nat>, step: nat, cur: nat,
                         closedAt': map<nat, nat>, step': nat)
    requires Ranked(nodes, closedAt, step) && cur < |nodes| && cur !in closedAt
    requires closedAt' == closedAt[cur := step] && step' == step + 1
    ensures Ranked(nodes, closedAt', step')
  {
    forall i | 0 <= i < |nodes|
      ensures ParentRanked(nodes, closedAt', step', i)
    {
      assert ParentRanked(nodes, closedAt, step, i);
    }
  }

  /** Appending a priced child of an existing node keeps the arena well formed. */
  lemma ArenaAppend(rows: int, cols: int, tiles: map<Point, int>, target: seq<Point>, source: seq<Point>,
                    nodes: seq<PathPoint>, cur: nat, n: PathPoint)
    requires Arena(rows, cols, tiles, target, source, nodes)
    requires cur < |nodes| && n.parent == Some(cur)
    requires Step(rows, cols, tiles, nodes[cur].point, n.point) && PricedFor(n, source)
    ensures Arena(rows, cols, tiles, target, source, nodes + [n])
  {
    var nodes' := nodes + [n];
    forall i | 0 <= i < |nodes'|
      ensures NodeOk(rows, cols, tiles, target, source, nodes', i)
    {
      if i < |nodes| {
        assert NodeOk(rows, cols, tiles, target, source, nodes, i);
        assert nodes'[i] == nodes[i];
        if nodes[i].parent.Some? {
          assert nodes'[nodes[i].parent.value] == nodes[nodes[i].parent.value];
        }
      } else {
        assert nodes'[i] == n && nodes'[cur] == nodes[cur];
      }
    }
  }

  /** Appending a child of a closed node keeps the closing order a ranking. */
  lemma RankedAppend(nodes: seq<PathPoint>, closedAt: map<nat, nat>, step: nat, cur: nat, n: PathPoint)
    requires Ranked(nodes, closedAt, step)
    requires cur in closedAt && n.parent == Some(cur)
    ensures Ranked(nodes + [n], closedAt, step)
  {
    var nodes' := nodes + [n];
    forall i | 0 <= i < |nodes'|
      ensures ParentRanked(nodes', closedAt, step, i)
    {
      if i < |nodes| {
        assert ParentRanked(nodes, closedAt, step, i);
        assert nodes'[i] == nodes[i];
      } else {
        assert i !in closedAt;
      }
    }
  }

  /** Adding the candidate `n` for the unvisited tile `p`, child of closed node `cur`, keeps the bookkeeping. */
  lemma InsertKeepsFrame(rows: int, cols: int, tiles: map<Point, int>, target: seq<Point>, source: seq<Point>,
                         bound: nat, inGrid: bool, nodes: seq<PathPoint>, open: map<Point, nat>,
                         closed: map<Point, nat>, closedAt: map<nat, nat>, step: nat, cur: nat, n: PathPoint)
    requires Frame(rows, cols, tiles, target, source, bound, inGrid, nodes, open, closed, closedAt, step)
    requires cur in closedAt && n.parent == Some(cur) && n.point !in open && n.point !in closed
    requires Step(rows, cols, tiles, nodes[cur].point, n.point) && PricedFor(n, source)
    requires InBox(bound, n.point) && (inGrid ==> InGrid(rows, cols, n.point))
    ensures Frame(rows, cols, tiles, target, source, bound, inGrid, nodes + [n], open[n.point := |nodes|],
                  closed, closedAt, step)
  {
    var nodes' := nodes + [n];
    var open' := open[n.point := |nodes|];
    assert open'.Keys == open.Keys + {n.point};
    assert forall j :: 0 <= j < |nodes| ==> nodes'[j] == nodes[j];
    assert nodes'[|nodes|] == n;
    ArenaAppend(rows, cols, tiles, target, source, nodes, cur, n);
    RankedAppend(nodes, closedAt, step, cur, n);
  }

  /** Handing the frontier node at tile `p` the closed parent `cur` keeps the bookkeeping. */
  lemma RelaxKeepsFrame(rows: int, cols: int, tiles: map<Point, int>, target: seq<Point>, source: seq<Point>,
                        bound: nat, inGrid: bool, nodes: seq<PathPoint>, open: map<Point, nat>,
                        closed: map<Point, nat>, closedAt: map<nat, nat>, step: nat, cur: nat, p: Point)
    requires Frame(rows, cols, tiles, target, source, bound, inGrid, nodes, open, closed, closedAt, step)
    requires cur in closedAt && p in open && Step(rows, cols, tiles, nodes[cur].point, p)
    ensures Frame(rows, cols, tiles, target, source, bound, inGrid,
                  nodes[open[p] := nodes[open[p]].(parent := Some(cur))], open, closed, closedAt, step)
  {
    var j := open[p];
    var nodes' := nodes[j := nodes[j].(parent := Some(cur))];
    assert j !in closedAt;
    forall i | 0 <= i < |nodes'|
      ensures NodeOk(rows, cols, tiles, target, source, nodes', i) && ParentRanked(nodes', closedAt, step, i)
    {
      assert NodeOk(rows, cols, tiles, target, source, nodes, i);
      assert ParentRanked(nodes, closedAt, step, i);
    }
  }

  /**
   * Once every neighbour of `cp` is closed, open or impassable, and the
   * frontier has only grown since every other closed tile was last
   * enclosed, all closed tiles are enclosed.
   */
  lemma EncloseCurrent(rows: int, cols: int, tiles: map<Point, int>, open: set<Point>, open': set<Point>,
                       closed: set<Point>, cp: Point)
    requires forall q :: q in open ==> q in open'
    requires EnclosedExcept(rows, cols, tiles, open, closed, cp)
    requires AllSettled(tiles, open', closed, Surrounding(rows, cols, cp))
    ensures Enclosed(rows, cols, tiles, open', closed)
  {
  }

  /** Closing one more tile of the box leaves fewer unclosed tiles in it: the search terminates. */
  lemma CloseShrinks(bound: nat, closed: map<Point, nat>, p: Point, v: nat)
    requires p !in closed && InBox(bound, p)
    ensures BoxSet(bound) - closed[p := v].Keys < BoxSet(bound) - closed.Keys
  {
    assert p in BoxSet(bound) - closed.Keys;
  }

  /** Every tile of `qs` is closed, open or impassable. */
  ghost predicate AllSettled(tiles: map<Point, int>, open: set<Point>, closed: set<Point>, qs: seq<Point>)
  {
    forall q :: q in qs ==> q in closed || q in open || TileWeight(tiles, q) == -1
  }

  /**
   * The first `k` tiles of `qs`, once settled, stay settled as the frontier
   * grows, and with `qs[k]` settled too the first `k + 1` are.
   */
  lemma SettledGrow(tiles: map<Point, int>, open: set<Point>, open': set<Point>, closed: set<Point>,
                    qs: seq<Point>, k: nat)
    requires k < |qs| && AllSettled(tiles, open, closed, qs[..k])
    requires forall r :: r in open ==> r in open'
    requires qs[k] in closed || qs[k] in open' || TileWeight(tiles, qs[k]) == -1
    ensures AllSettled(tiles, open', closed, qs[..k + 1])
  {
    assert qs[..k + 1] == qs[..k] + [qs[k]];
  }

  /** Every closed tile but `cp` is enclosed. */
  ghost predicate EnclosedExcept(rows: int, cols: int, tiles: map<Point, int>, open: set<Point>, closed: set<Point>,
                                 cp: Point)
  {
    forall c, q :: c in closed && c != cp && Neighbour(rows, cols, c, q) ==>
      q in closed || q in open || TileWeight(tiles, q) == -1
  }

  /** Moving `cp` from the frontier to the closed tiles leaves every other closed tile enclosed. */
  lemma CloseKeepsEnclosure(rows: int, cols: int, tiles: map<Point, int>, open: map<Point, nat>,
                            closed: map<Point, nat>, cp: Point, v: nat)
    requires Enclosed(rows, cols, tiles, open.Keys, closed.Keys) && cp in open
    ensures EnclosedExcept(rows, cols, tiles, (open - {cp}).Keys, closed[cp := v].Keys, cp)
  {
  }

  /**
   * An exhausted search that never met the source: no route from a target
   * reaches the source, because routes stay among the closed tiles.
   */
  lemma ExhaustedMeansUnreachable(rows: int, cols: int, tiles: map<Point, int>, target: seq<Point>,
                                  source: seq<Point>, closed: set<Point>)
    requires Enclosed(rows, cols, tiles, {}, closed)
    requires forall t :: t in target ==> t in closed
    requires closed != {} ==> |source| == 1 && forall c :: c in closed ==> c != source[0]
    ensures forall w :: Route(rows, cols, tiles, target, w) ==> w[0] !in source
  {
    forall w | Route(rows, cols, tiles, target, w)
      ensures w[0] !in source
    {
      RoutesStayClosed(rows, cols, tiles, target, closed, w);
      assert w[0] in closed;
      assert source == [source[0]];
    }
  }
}
