# go-astar search engine, modelled in Dafny

This project models the `astar` package of go-astar: a grid path-finding
engine that keeps a tile-weight overlay (`FillTile`, `ClearTile`) and runs a
best-first search (`FindPath`) backwards, seeded from the targets, until the
configured strategy's end test (`IsEnd`) accepts a node against the sources.
Candidates are priced by the strategy (`SetWeight`); the one shipped strategy
is point-to-point (`NewPointToPoint`). The older pricing helper `RawDist` is
modelled too.

Files:

- `wrappers.dfy`: `Option` for Go's nil pointers and `Result` for panics.
- `points.dfy`: `Point`, Manhattan `Dist` and the `PathPoint` node record.
- `grid.dfy`: the overlay as a `map<Point, int>`, `getSurrounding` as a
  function, and routes over the grid.
- `search.dfy`: the node arena (parent links as indices), the bookkeeping the
  search keeps, and the lemmas that carry it from step to step.
- `configs.dfy`: the point-to-point strategy.
- `weights.dfy`: `RawDist`.
- `astar.dfy`: the engine as a class `AStarBase` with `config`, `filledTiles`,
  `rows` and `cols`.

Design:

- Search nodes live in a sequence (an arena). A node's `parent` is an index
  into it. The open and closed lists are `map<Point, nat>` from a tile to its
  node's index, so relaxing a frontier node is an update of one arena slot.
  `FindPath` returns the outcome together with the arena.
- The `AStarConfig` interface becomes the datatype `Strategy` with the member
  functions `IsEnd` and `SetWeight`. Point-to-point is its only variant. The
  engine's `config` is an `Option<Strategy>`; `None` is the nil `Config` that
  `NewAStarBaseStruct` leaves.
- A Go panic becomes a `Result.Err` in the strategy and `Outcome.Panic` in
  `FindPath`. With at least one target, `FindPath` panics on its first end
  test when the config is nil or the source list does not hold exactly one
  point. With no targets it returns nil without ever testing.
- `SetWeight` and `RawDist` write through a pointer to a node. The node they
  receive is always freshly built and not shared, so the model passes it by
  value and returns the updated copy.
- `FindPath`'s loop has no bound in the source. The model proves that it ends:
  every tile the search reaches lies in a box that contains the grid and every
  target, and each iteration closes one more tile of that box.

Where a reader might expect otherwise, the model follows the code:

- Seeds are not priced by the strategy. They keep weight 0 and ignore the
  overlay weight of their tile (astar/astar.go:87-92).
- Relaxing a frontier node changes only its `Parent`. Its `Weight`,
  `FillWeight` and `DistTraveled` keep the values of the first route found
  (astar/astar.go:139-141). So "steps traveled is the parent's plus one" is
  not an invariant of the arena, and the model does not claim it.
- No post-processing step runs on the result.
- A target outside the grid is seeded anyway. The search can walk from it
  back into the grid, because `getSurrounding` only checks the far edge
  against `rows - 1` and `cols - 1`.

## Model

| member | source | states |
|---|---|---|
| `Points.Dist` | astar/astar.go:207-210 | Manhattan distance is a natural number, 0 exactly when the points are equal, and 1 exactly for orthogonally adjacent points |
| `Points.DistSymmetric` | astar/astar.go:207-210 | the distance from p to q equals the distance from q to p |
| `Points.DistTriangle` | astar/astar.go:207-210 | the distance satisfies the triangle inequality |
| `Points.Root` | astar/astar.go:87-92 | a seed stands on its target, has no parent, and has weight, fill weight and distance traveled all 0 |
| `Grid.Filled` | astar/astar.go:64-69 | after filling p with w, p weighs w, the keys gain only p, and every other entry is unchanged |
| `Grid.Cleared` | astar/astar.go:71-77 | after clearing p, p has no entry and reads as weight 0, and every other entry is unchanged |
| `Grid.FillIdempotent` | astar/astar.go:64-69 | filling the same tile with the same weight twice equals filling it once |
| `Grid.ClearIdempotent` | astar/astar.go:71-77 | clearing a tile twice equals clearing it once |
| `Grid.ClearUndoesFill` | astar/astar.go:64-77 | clearing a filled tile gives the overlay as if the tile had never been filled, and the tile reads as 0 (the default read at astar/astar.go:117) |
| `Grid.TileWeight` | astar/astar.go:116-118 | the overlay read: the stored weight of a filled tile, 0 for a tile without an entry |
| `Grid.Surrounding` | astar/astar.go:162-182 | a tile is in the neighbour list exactly when it is one of the four orthogonal steps that the edge tests allow |
| `Grid.SurroundingShape` | astar/astar.go:162-182 | at most four neighbours, pairwise distinct, in the order up, down, left, right, each at distance 1; for a tile of the grid, exactly its in-grid tiles at distance 1 |
| `Grid.SurroundingStays` | astar/astar.go:162-182 | neighbours of a tile of the grid stay in the grid, and neighbours of a tile in any box containing the grid stay in that box |
| `Configs.Strategy.IsEnd` | astar/configs.go:41-46 | panics exactly when the end list does not hold one point; otherwise true exactly when the point equals that one point |
| `Configs.Strategy.SetWeight` | astar/configs.go:27-39 | panics exactly when the end list does not hold one point; refuses exactly the tiles of weight -1 and leaves the node unchanged then; otherwise writes only the weight, as fill weight plus distance traveled plus the distance to the end point, which is at least fill weight plus distance traveled, with equality exactly at the end point |
| `Weights.RawDist` | weights.go:5-11 | distance traveled becomes the parent's plus one; the weight becomes the raw tile weight plus the distance to the target plus the distance traveled, so it is at least tile weight plus distance traveled, with equality exactly at the target; point, parent and fill weight are unchanged (see the `Weights.RawDist` line under Left out) |
| `Search.Chain` | astar/astar.go:198 | walking parent links from a node yields indices of the arena, each linked to the next, and stops before its fuel runs out only at a node with no parent or with a parent index outside the arena (which a well-formed arena rules out) |
| `Search.ChainReachesRoot` | astar/astar.go:105-106 | since every parent was closed before its child, walking parent links from any node reaches a node without a parent within the arena's size |
| `Search.TraceIsRoute` | astar/astar.go:120-141 | the tiles met walking parent links from a node form a route: each is a passable neighbour of the next, and the last is a target |
| `Search.FrontierTraceIsRoute` | astar/astar.go:95-103 | walking parent links from any frontier node, such as the one the end test accepts, ends at a seed within the arena's size, and the tiles met form a passable route to a target |
| `Search.SeedFrame` | astar/astar.go:84-92 | the seeded frontier with nothing closed meets the search's bookkeeping |
| `Search.RoutesStayClosed` | astar/astar.go:105-143 | once the frontier is empty, every route from a target stays among the closed tiles |
| `Search.ExhaustedMeansUnreachable` | astar/astar.go:95-103 | an exhausted search that never met the source proves that no route from a target reaches the source |
| `Search.CloseKeepsFrame` | astar/astar.go:105-106 | moving the selected node from the open to the closed map keeps the maps disjoint, keyed by their nodes' tiles, and keeps every parent closed before its child |
| `Search.CloseKeepsRanked` | astar/astar.go:105-106 | closing a node that was not closed before keeps every parent ranked before its child |
| `Search.CloseKeepsEnclosure` | astar/astar.go:105-106 | closing the selected node leaves every other closed tile with all its neighbours closed, open or impassable |
| `Search.CloseShrinks` | astar/astar.go:105-106 | closing a tile of the box leaves fewer unclosed tiles in it, so the search terminates |
| `Search.EncloseCurrent` | astar/astar.go:108-143 | after the neighbour loop, every neighbour of every closed tile is closed, open or impassable |
| `Search.SettledGrow` | astar/astar.go:110-143 | a neighbour handled by the loop is closed, open or impassable, and stays so as the frontier grows |
| `Search.ArenaAppend` | astar/astar.go:120-137 | appending a priced child of an existing node keeps every node well formed |
| `Search.RankedAppend` | astar/astar.go:120-137 | appending a child of a closed node keeps every parent ranked before its child |
| `Search.InsertKeepsFrame` | astar/astar.go:135-137 | inserting a candidate for a tile neither open nor closed keeps the search's bookkeeping |
| `Search.RelaxKeepsFrame` | astar/astar.go:138-141 | handing an open node a closed parent keeps the search's bookkeeping |
| `AStar.Candidate` | astar/astar.go:120-125 | the candidate for a neighbour has the current node as parent, fill weight the current's plus the tile's weight, distance traveled the current's plus one, and weight 0 until priced |
| `AStar.AStarBase.constructor` | astar/astar.go:48-58 | a new engine has the given rows and columns, an empty overlay and no strategy |
| `AStar.AStarBase.NewPointToPoint` | astar/configs.go:17-25 | a new point-to-point engine has the given rows and columns, an empty overlay, and the point-to-point strategy as its config |
| `AStar.AStarBase.FillTile` | astar/astar.go:64-69 | the overlay becomes the old overlay with p set to the weight |
| `AStar.AStarBase.ClearTile` | astar/astar.go:71-77 | the overlay becomes the old overlay without p |
| `AStar.AStarBase.GetMinWeight` | astar/astar.go:149-160 | nil exactly when the open map is empty; otherwise the index of an open node whose weight is at most every open node's weight |
| `AStar.AStarBase.GetSurrounding` | astar/astar.go:162-182 | the neighbours of p in the order up, down, left, right, as far as the grid's edges allow |
| `AStar.AStarBase.Seed` | astar/astar.go:84-92 | one root node per target, the open tiles are exactly the targets, each keyed by its node's tile |
| `AStar.AStarBase.Visit` | astar/astar.go:110-142 | a closed or impassable neighbour changes nothing; otherwise the candidate has the current node as parent, fill weight the current's plus the tile weight, distance traveled the current's plus one, and the strategy's price; it is inserted when the tile is not open, and when it is open and strictly cheaper only the existing node's parent becomes the current node |
| `AStar.AStarBase.VisitKeepsFrame` | astar/astar.go:110-142 | every outcome of handling one neighbour keeps the search's bookkeeping and leaves the current node unchanged |
| `AStar.AStarBase.VisitTracked` | astar/astar.go:110-142 | handling one neighbour keeps the bookkeeping, only grows the frontier, and leaves the neighbour closed, open or impassable |
| `AStar.AStarBase.ExpandNeighbours` | astar/astar.go:108-143 | handling every neighbour of the closed node only grows the frontier, keeps the bookkeeping, and leaves every neighbour of every closed tile closed, open or impassable |
| `AStar.AStarBase.CloseAndExpand` | astar/astar.go:105-143 | one iteration keeps the bookkeeping, never closes the source, and closes one more tile of the bounding box |
| `AStar.AStarBase.FindPath` | astar/astar.go:83-147 | panics exactly when there is a target and the config is nil or the source list does not hold one point; a found node stands on the source, its parent chain ends at a seed, and its tiles form a passable route to a target; no path is returned only when no route from a target reaches the source; every node lies in the grid when every target does |

## Left out

- The mutex `tileLock` (astar/astar.go:41 and every Lock/Unlock): the model is sequential, so concurrent overlay edits during a search are not modelled.
- Points.Dist: the source computes the distance through `float64` and `math.Abs`; the model uses integer absolute value, which agrees with the source only while the absolute row difference, the absolute column difference and their sum are at most 2^53 (rows 2^53 and -1 are both exact as `float64`, but their difference is not).
- AStar.AStarBase.FindPath: the source's comment promises "the easiest path" (astar/astar.go:79), but no cost-optimality of the route found is claimed, because the code does not guarantee it: tile weights below -1 are accepted (astar/configs.go:32), so the Manhattan term is no lower bound on the remaining cost; a relaxed frontier node keeps its old `Weight`, `FillWeight` and `DistTraveled` (astar/astar.go:139-141), so its children are priced from stale values; and closed tiles are never reopened (astar/astar.go:111-113). The model proves that the route found is a passable route from the source to a target, and that no path is reported only when none exists.
- Weights.RawDist: `RawDist` works on the `PathPoint` of the root package (astar.go:19-27), which has no `FillWeight` field; the model reuses the engine's node type, so its clause that the fill weight is unchanged has no counterpart in the source.
- Go's 64-bit `int` wrap-around: weights, distances and coordinates are unbounded integers, so overflow of very large weights or coordinates is not modelled.
- AStar.AStarBase.GetMinWeight: Go's map iteration order decides ties in the source; the model picks an arbitrary minimal node and imposes no tie-break.
- `WeightData` (astar/astar.go:204): an opaque payload the engine never touches; it is not a field of the model's node.
- Custom strategies: the `AStarConfig` interface is modelled as a closed datatype whose only variant is point-to-point, so a user-supplied strategy is not modelled. Row-to-row and list-to-point strategies and path reversal have no source in the package and are not part of this model.
- AStar.AStarBase.FindPath: the source returns a pointer to a node; the model returns the node's index together with the node arena, so the shared, pointer-linked nodes are represented by indices.
- Configs.Strategy.SetWeight and Weights.RawDist: the node is passed by value and the updated copy returned instead of being written through a pointer; aliasing of that node is not modelled, as the engine only passes fresh candidates.
- The `AStar` and `AStarBase` Go interfaces: they only group method signatures.
- example.go and example_row_to_row.go (random maps, printing, timing, `main`) and the root astar.go (a superseded snapshot) are not part of this model.
