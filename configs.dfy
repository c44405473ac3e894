/**
 * The strategies an engine can be configured with (astar/configs.go). Go's
 * `AStarConfig` interface becomes a closed datatype whose one variant is the
 * point-to-point strategy; its methods are member functions.
 */
module Configs {
  import opened Wrappers
  import opened Points

  /** The message of the panic raised when `end` does not hold exactly one point. */
  const InvalidEnd := "Invalid end specified"

  /** What `SetWeight` answers: whether the node may enter the frontier, and the node it priced. */
  datatype Priced = Priced(allowed: bool, node: PathPoint)

  datatype Strategy = PointToPoint {

    /**
     * Has the search reached its end? `end` is the search's `source` list,
     * because the engine searches backwards. Panics unless `end` holds
     * exactly one point.
     */
    function IsEnd(p: Point, end: seq<Point>): (r: Result<bool>)
      ensures r.Err? <==> |end| != 1
      ensures r.Err? ==> r.error == InvalidEnd
      ensures r.Ok? ==> (r.value <==> p == end[0])
    {
      if |end| != 1 then Err(InvalidEnd) else Ok(p == end[0])
    }

    /**
     * Price the candidate `p`, standing on a tile of overlay weight
     * `fillWeight`. Impassable tiles (-1) are refused and the node is left
     * as it was; otherwise only the node's `weight` is written, with the
     * route cost so far plus the Manhattan distance still to go. The source
     * writes through a pointer; the candidate is freshly built and not yet
     * shared, so the model passes it by value and returns the updated copy.
     */
    function SetWeight(p: PathPoint, fillWeight: int, end: seq<Point>): (r: Result<Priced>)
      ensures r.Err? <==> |end| != 1
      ensures r.Err? ==> r.error == InvalidEnd
      ensures r.Ok? ==> (r.value.allowed <==> fillWeight != -1)
      ensures r.Ok? && !r.value.allowed ==> r.value.node == p
      ensures r.Ok? && r.value.allowed ==>
        r.value.node == p.(weight := r.value.node.weight) &&
        r.value.node.weight == p.fillWeight + p.distTraveled + Dist(p.point, end[0])
      ensures r.Ok? && r.value.allowed ==>
        r.value.node.weight >= p.fillWeight + p.distTraveled &&
        (r.value.node.weight == p.fillWeight + p.distTraveled <==> p.point == end[0])
    {
      if |end| != 1 then Err(InvalidEnd)
      else if fillWeight == -1 then Ok(Priced(false, p))
      else Ok(Priced(true, p.(weight := p.fillWeight + p.distTraveled + Dist(p.point, end[0]))))
    }
  }
}
