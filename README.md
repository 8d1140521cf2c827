# Indoor wayfinder: walkable grid, route search and route stepping

This project models the routing core of an indoor hospital wayfinder and proves
properties of it. The model has four modules:

- `Types` (types.dfy): the floor-plan data. That is points, walls, points of interest
  (POIs) with their type enumeration, floors, and the map.
- `Grid` (grid.dfy): the walkable grid. The rasteriser visits every lattice point of
  the map, stepping by the grid resolution. A point is blocked when the clamped
  projection onto some non-degenerate wall lies closer than 0.4 resolution steps.
  Every unblocked point is kept. The wall scan and the lattice scan are imperative
  methods, each proved equal to a declarative definition. The wall scan
  `IsInsideWall` is proved equal to the blocking predicate `Blocked`. The lattice
  scan `CreateWalkableGrid` is proved equal to the walkable set `WalkableCells`. The
  properties of the grid are lemmas about that set.
- `Pathfinding` (pathfinding.dfy): the route search.
  - Both endpoints are snapped to the nearest lattice point, with halves rounded up
    as `Math.round` does. The search gives up when either snapped endpoint is not
    walkable.
  - Otherwise a first-in first-out breadth-first search runs over the four lattice
    neighbours, with a visited set and a parent map. The route is rebuilt by
    following the parent links back from the goal.
  - `FindPath` is proved correct in both directions:
    - It returns a route exactly when the snapped goal can be reached from the
      snapped start through walkable cells.
    - A returned route is a shortest such walk.
  - The proof carries a ghost distance map alongside the real state. Its invariants
    are that the visited cells form a breadth-first tree whose recorded distances are
    exact, and that the queue is sorted by distance and spans at most two layers.
- `App` (app.dfy): the search box and the step buttons of the main screen.
  - The search highlights every POI whose lower-cased name, or whose type value,
    contains the lower-cased query.
  - A step moves the walker 15 feet forward or back along the route, clamped to the
    route's length.
  - It also models the cases of `getPointAtDistance` that need no length arithmetic.

Coordinates and the grid resolution are integers. The projection parameter of the
wall test is an exact `real`.

## Model

| member | source | states |
|---|---|---|
| Types.TypeValue | types.ts:9-20 | each POI type's string value is non-empty and entirely lower-case, so matching a lower-cased query against it needs no case folding |
| Grid.PointToKey | services/pathfinding.ts:4 | a point's key carries exactly its x and y coordinates |
| Grid.IsWalkable | services/pathfinding.ts:7-9 | a point is walkable exactly when the key of its coordinates is in the walkable set |
| Grid.KeyIgnoresFloor | services/pathfinding.ts:4-9 | two points share a key exactly when their coordinates agree; walkability never depends on the floor a point names |
| Grid.ProjectionParam | services/pathfinding.ts:28-29 | the projection parameter of a non-degenerate wall is clamped to [0, 1] |
| Grid.IsInsideWall | services/pathfinding.ts:20-40 | the wall scan reports a point inside a wall exactly when some wall of non-zero length passes within the blocking radius |
| Grid.CreateWalkableGrid | services/pathfinding.ts:11-48 | the rasteriser returns exactly the in-bounds lattice points that no wall blocks |
| Grid.WalkableAreLatticePoints | services/pathfinding.ts:15-17 | every walkable key has non-negative coordinates that are multiples of the resolution, with x below the width and y below the height |
| Grid.TooCloseIsBlocked | services/pathfinding.ts:28-39 | a point whose squared distance to the clamped projection onto a non-degenerate wall is below (0.4 resolution)² is not walkable |
| Grid.ClearIsWalkable | services/pathfinding.ts:15-46 | a lattice point at least the blocking radius from every non-degenerate wall is walkable |
| Grid.NoWallsAllWalkable | services/pathfinding.ts:15-46 | with no walls, a key is walkable if and only if it is an in-bounds lattice point |
| Grid.ZeroLengthWallIgnored | services/pathfinding.ts:25-26 | adding a wall of length zero leaves the walkable set unchanged |
| Grid.MoreWallsFewerCells | services/pathfinding.ts:21-40 | a wall list that contains every wall of another yields a walkable set no larger than the other's |
| Grid.ProjectionNoFartherThanEnds | services/pathfinding.ts:28-36 | the clamped projection is no farther from the point than either end of the wall |
| Grid.NearWallEndIsBlocked | services/pathfinding.ts:28-39 | a lattice point within the blocking radius of either end of a non-degenerate wall is not walkable |
| Grid.DividingWallExample | services/pathfinding.ts:11-48 | on a 2400×1600 map with resolution 10, a wall from (50, 0) to (50, 100) blocks (50, 50) and leaves (30, 50) and (70, 50) walkable |
| Pathfinding.Round | services/pathfinding.ts:60-61 | the rounded quotient lies within half a unit of num/den, with halves rounded up |
| Pathfinding.SnapCoordinate | services/pathfinding.ts:60-61 | a snapped coordinate is a multiple of the resolution, above v - res/2 and at most v + res/2 |
| Pathfinding.SnapToGrid | services/pathfinding.ts:59-62 | the snapped point has no floor, and each coordinate is a multiple of the resolution within half a step of the input |
| Pathfinding.SnapFixesLatticePoints | services/pathfinding.ts:59-62 | a lattice point snaps to itself |
| Pathfinding.Neighbors | services/pathfinding.ts:94-99 | four cells are tried, and a cell is among them exactly when it lies one resolution step from the current cell along one axis |
| Pathfinding.FindPath | services/pathfinding.ts:51-115 | the result is a route exactly when both snapped endpoints are walkable and connected; a route is a shortest walk between them |
| Pathfinding.VisitNeighbors | services/pathfinding.ts:94-111 | expanding a cell keeps the breadth-first tree and the two-layer sorted queue and closes the cell; the old queue stays a prefix of the new one, every cell appended was unvisited, every newly visited cell is a walkable neighbour of the expanded cell that is queued with that cell as its parent, old parent links are unchanged, and every walkable neighbour ends up visited |
| Pathfinding.Reconstruct | services/pathfinding.ts:84-91 | following parent links back from a visited goal yields a walk from the start to the goal that is a shortest walk |
| Pathfinding.VisitKeepsTree | services/pathfinding.ts:103-110 | visiting an unvisited walkable neighbour of a cell at distance d, with parent that cell, keeps every recorded distance exact |
| Pathfinding.NextHead | services/pathfinding.ts:79-80 | after an expansion, whenever the queue head moves to the next layer, every cell of that layer has been visited |
| Pathfinding.FewerUnvisited | services/pathfinding.ts:105-107 | marking a cell visited shrinks the set of unvisited walkable cells, so the search terminates |
| Pathfinding.FrontierPush | services/pathfinding.ts:107-109 | a newly visited cell queued at distance d + 1 keeps the queue sorted, duplicate-free and within two layers |
| Pathfinding.FrontierPop | services/pathfinding.ts:80 | the head of the queue occurs nowhere else in it, and the rest of the queue keeps the sorted two-layer order |
| Pathfinding.PopDequeued | services/pathfinding.ts:80 | after the head is taken off, it is recorded as dequeued and no remaining entry is a dequeued cell |
| Pathfinding.NeverRequeued | services/pathfinding.ts:101-109 | an expansion queues no cell that was taken off the queue before, so each cell is dequeued at most once |
| Pathfinding.ShortestByLayer | services/pathfinding.ts:83-91 | a walk whose length matches the goal's breadth-first layer is a shortest walk |
| Pathfinding.NoWalkOutOfClosedSet | services/pathfinding.ts:112-114 | when the queue empties without reaching the goal, no walk connects start and goal |
| Pathfinding.ShortestWalkToItself | services/pathfinding.ts:83-91 | when both endpoints snap to the same cell, the route is that single cell |
| Pathfinding.ShortestWalkIsSimple | services/pathfinding.ts:94-109 | a shortest route never visits a cell twice |
| App.ToLower | App.tsx:61 | lower-casing keeps the length, maps each character through the ASCII folding, and leaves no upper-case letter |
| App.TypeValueIsLowerCase | App.tsx:69 | lower-casing a POI type's string value leaves it unchanged, so searching the raw type string is the same as searching its lower-cased form |
| App.ToLowerIdempotent | App.tsx:61 | lower-casing twice is lower-casing once |
| App.Includes | App.tsx:70 | `includes` holds exactly when the query occurs at some offset of the string |
| App.IncludesTransitive | App.tsx:70 | a string containing q2 contains every string that q2 contains |
| App.TypeString | App.tsx:69 | an untyped POI contributes the empty string, and only an untyped POI does |
| App.HighlightedPoiIds | App.tsx:60-75 | the loop computes exactly the highlight set: empty for an empty query, else the ids of the matching POIs |
| App.EmptyQueryHighlightsNothing | App.tsx:61-64 | an empty lower-cased query highlights nothing |
| App.HighlightMembership | App.tsx:66-72 | for a non-empty query, an id is highlighted if and only if some POI with that id has the lower-cased query in its lower-cased name or its type value |
| App.HighlightedIdsAreKnown | App.tsx:66-73 | only ids of POIs in the list are highlighted |
| App.UntypedMatchesByNameOnly | App.tsx:69-70 | a POI without a type matches a non-empty query only through its name |
| App.SearchIgnoresCase | App.tsx:61 | a query and its lower-cased form highlight the same POIs |
| App.LongerQueryHighlightsFewer | App.tsx:66-72 | for a shorter query whose lower-cased form is non-empty, a query whose lower-cased form contains it highlights no POI the shorter one did not (the empty query highlights nothing, so it is excluded) |
| App.GetPointAtDistance | App.tsx:19-21 | null exactly for an empty route; the first point for a distance of at most 0, and for a one-point route; otherwise a point interpolated along that route at that distance |
| App.Clamp | App.tsx:141 | `Math.max(lo, Math.min(v, hi))` lies in [lo, hi], equals v when v is in range, and is the nearer bound otherwise |
| App.HandleStep | App.tsx:136-148 | no route or zero length leaves the state unchanged; otherwise animation stops, the distance is ±15 clamped to [0, total] (for a positive total, `Clamp` of the new distance), and the position is the point at that distance |
| App.StepBackToStart | App.tsx:136-148 | a backward step from within 15 feet of the start lands at distance 0 on the first point |
| App.ForwardThenBackward | App.tsx:140-141 | away from the route's ends, a backward step undoes a forward step |
| App.StepsStayOnRoute | App.tsx:140-141 | from a distance on the route, any sequence of steps keeps the distance in [0, total] |

## Left out

- Floating point: coordinates, the resolution and the map size are integers. The projection and the blocking test use exact reals. The source computes these in IEEE doubles, so rounding near the blocking radius is not modelled.
- Pathfinding.Round: `Math.round(v / res)` is modelled exactly as floor(v / res + 1/2) on integers. The double-precision division is not modelled.
- Walls and POIs are passed explicitly, as one floor's sequences. `createWalkableGrid` reads `mapData.walls` and the screen reads `MAP_DATA.pois`, but the map type in types.ts:44-49 has only `floors`, so neither field exists on it.
- Keys: grid keys are coordinate pairs rather than the string `"x,y"`, which is one-to-one on integer coordinates. `FindPath` returns the route as keys. Every point the search produces is floor-less, so nothing is lost.
- Pathfinding.FindPath: the contract fixes the route's length and validity but not which of several shortest routes the neighbour order selects.
- `console.warn` on an unwalkable endpoint is a logging side effect and is not modelled.
- App.ToLower: JavaScript's `toLowerCase` folds the whole of Unicode. The model folds ASCII letters only.
- App.GetPointAtDistance: the walk along the segments is floating-point interpolation with square roots, as is `calculatePathLength`. Only its outcome for routes of two or more points at a positive distance is named, as `Interpolated(path, distance)`: the route and the distance the point lies at, not its coordinates.
- App.HandleStep: the route's total length is taken as a parameter rather than computed by `calculatePathLength`.
- Animation, timers, React state hooks, rendering and the components are not part of this model.
