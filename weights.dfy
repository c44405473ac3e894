/** The node-pricing helper of the older API (weights.go). */
module Weights {
  import opened Wrappers
  import opened Points

  /**
   * Price `p` against a single `target`: one step more than its parent, plus
   * the raw weight of the tile it stands on (not a cumulative one), plus the
   * distance still to go. The parent is read through the node arena `nodes`;
   * the source dereferences it, so a nil parent is a caller error. As for
   * SetWeight, the node is passed by value and the updated copy returned.
   */
  method RawDist(nodes: seq<PathPoint>, p: PathPoint, fillWeight: int, target: Point) returns (q: PathPoint)
    requires p.parent.Some? && p.parent.value < |nodes|
    ensures q.point == p.point && q.parent == p.parent && q.fillWeight == p.fillWeight
    ensures q.distTraveled == nodes[p.parent.value].distTraveled + 1
    ensures q.weight == fillWeight + Dist(p.point, target) + q.distTraveled
    ensures q.weight >= fillWeight + q.distTraveled
    ensures q.weight == fillWeight + q.distTraveled <==> p.point == target
  {
    q := p.(distTraveled := nodes[p.parent.value].distTraveled + 1);
    q := q.(weight := fillWeight);
    q := q.(weight := q.weight + Dist(q.point, target));
    q := q.(weight := q.weight + q.distTraveled);
  }
}
