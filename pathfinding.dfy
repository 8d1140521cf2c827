/**
 * The route search of services/pathfinding.ts: endpoints are snapped to the
 * lattice, both must be walkable, and a first-in first-out breadth-first search
 * over the four lattice neighbours, remembering a parent for every cell it
 * reaches, finds the goal; the route is rebuilt by following the parents back.
 *
 * Every point the search handles is a floor-less {x, y}, which pointToKey maps
 * one-to-one onto its key; the model therefore searches over, and returns, keys.
 */
module Pathfinding {
  import opened Types
  import opened Grid

  // ---------------------------------------------------------------------------
  // Snapping to the lattice

  /** Math.round(num / den) for a positive den: the integer nearest to num / den,
      a half rounded up, that is floor(num / den + 1/2). */
  function Round(num: int, den: int): (n: int)
    requires den > 0
    ensures den * (2 * n) - den <= 2 * num < den * (2 * n) + den
  {
    var n := (2 * num + den) / (2 * den);
    assert 2 * num + den == (2 * den) * n + (2 * num + den) % (2 * den);
    assert (2 * den) * n == den * (2 * n);
    n
  }

  /** One coordinate of snapToGrid: the multiple of the resolution nearest to v. */
  function SnapCoordinate(v: int, gridResolution: int): (s: int)
    requires gridResolution > 0
    ensures s % gridResolution == 0
    ensures -gridResolution < 2 * (s - v) <= gridResolution
  {
    var n := Round(v, gridResolution);
    MultipleHasNoRemainder(n, gridResolution);
    assert gridResolution * (2 * n) == 2 * (n * gridResolution);
    n * gridResolution
  }

  /** snapToGrid: the lattice point nearest to p (halves rounded up), without a floor. */
  function SnapToGrid(p: Point, gridResolution: int): (q: Point)
    requires gridResolution > 0
    ensures q.floorId == None
    ensures q.x % gridResolution == 0 && -gridResolution < 2 * (q.x - p.x) <= gridResolution
    ensures q.y % gridResolution == 0 && -gridResolution < 2 * (q.y - p.y) <= gridResolution
  {
    Point(SnapCoordinate(p.x, gridResolution), SnapCoordinate(p.y, gridResolution), None)
  }

  /** A lattice point snaps to itself. */
  lemma SnapFixesLatticePoints(p: Point, gridResolution: int)
    requires gridResolution > 0
    requires p.x % gridResolution == 0 && p.y % gridResolution == 0
    ensures PointToKey(SnapToGrid(p, gridResolution)) == PointToKey(p)
  {
    var q := SnapToGrid(p, gridResolution);
    SameMultipleWithinHalfStep(q.x, p.x, gridResolution);
    SameMultipleWithinHalfStep(q.y, p.y, gridResolution);
  }

  lemma SameMultipleWithinHalfStep(a: int, b: int, step: int)
    requires step > 0 && a % step == 0 && b % step == 0
    requires -step < 2 * (a - b) <= step
    ensures a == b
  {
    var qa, qb := a / step, b / step;
    assert a == step * qa && b == step * qb;
    assert a - b == step * (qa - qb);
    if qa - qb >= 1 {
      assert step * (qa - qb) == step * (qa - qb - 1) + step;
      ProductNonNegative(qa - qb - 1, step);
    } else if qa - qb <= -1 {
      assert step * (qa - qb) == step * (qa - qb + 1) - step;
      ProductNonPositive(qa - qb + 1, step);
    }
  }

  // ---------------------------------------------------------------------------
  // Walks on the walkable set

  /** One resolution step along exactly one axis. */
  predicate Adjacent(a: Key, b: Key, gridResolution: int)
  {
    || (a.y == b.y && (b.x == a.x + gridResolution || b.x == a.x - gridResolution))
    || (a.x == b.x && (b.y == a.y + gridResolution || b.y == a.y - gridResolution))
  }

  /** The neighbours the search tries, in the order it tries them. */
  function Neighbors(c: Key, gridResolution: int): (n: seq<Key>)
    ensures |n| == 4
    ensures forall k :: k in n <==> Adjacent(c, k, gridResolution)
  {
    [Key(c.x + gridResolution, c.y), Key(c.x - gridResolution, c.y),
     Key(c.x, c.y + gridResolution), Key(c.x, c.y - gridResolution)]
  }

  /** A sequence of walkable keys, each one step from the previous. */
  ghost predicate IsWalk(q: seq<Key>, walkableGrid: set<Key>, gridResolution: int)
  {
    && |q| > 0
    && (forall i :: 0 <= i < |q| ==> q[i] in walkableGrid)
    && (forall i :: 0 <= i < |q| - 1 ==> Adjacent(q[i], q[i + 1], gridResolution))
  }

  ghost predicate WalkFromTo(q: seq<Key>, walkableGrid: set<Key>, gridResolution: int, a: Key, b: Key)
  {
    IsWalk(q, walkableGrid, gridResolution) && q[0] == a && q[|q| - 1] == b
  }

  ghost predicate Connected(walkableGrid: set<Key>, gridResolution: int, a: Key, b: Key)
  {
    exists q :: WalkFromTo(q, walkableGrid, gridResolution, a, b)
  }

  /** A walk from a to b with no more cells than any other walk from a to b. */
  ghost predicate ShortestWalk(p: seq<Key>, walkableGrid: set<Key>, gridResolution: int, a: Key, b: Key)
  {
    && WalkFromTo(p, walkableGrid, gridResolution, a, b)
    && forall q :: WalkFromTo(q, walkableGrid, gridResolution, a, b) ==> |p| <= |q|
  }

  /** The cells reachable from s in at most n steps. */
  ghost function Reach(walkableGrid: set<Key>, gridResolution: int, s: Key, n: nat): set<Key>
  {
    if n == 0 then
      (if s in walkableGrid then {s} else {})
    else
      var r := Reach(walkableGrid, gridResolution, s, n - 1);
      r + set k | k in walkableGrid && exists j :: j in r && Adjacent(j, k, gridResolution)
  }

  /** Cell v is exactly n steps from s. */
  ghost predicate Layered(walkableGrid: set<Key>, gridResolution: int, s: Key, v: Key, n: nat)
  {
    v in Reach(walkableGrid, gridResolution, s, n) && (n > 0 ==> v !in Reach(walkableGrid, gridResolution, s, n - 1))
  }

  /** Every walkable neighbour of v is in `visited`. */
  ghost predicate Closed(walkableGrid: set<Key>, gridResolution: int, v: Key, visited: set<Key>)
  {
    forall w :: w in walkableGrid && Adjacent(v, w, gridResolution) ==> w in visited
  }

  // ---------------------------------------------------------------------------
  // Invariants of the search

  /** Every parent link is one step and one unit of distance back towards s. */
  ghost predicate ParentLinks(gridResolution: int, visited: set<Key>, parentMap: map<Key, Key>, dist: map<Key, nat>)
  {
    forall v :: v in parentMap ==>
      && parentMap[v] in visited && parentMap[v] in dist && v in dist
      && Adjacent(parentMap[v], v, gridResolution)
      && dist[v] == dist[parentMap[v]] + 1
  }

  /** Every visited cell's recorded distance is its exact distance from s. */
  ghost predicate Layers(walkableGrid: set<Key>, gridResolution: int, s: Key, visited: set<Key>, dist: map<Key, nat>)
  {
    forall v {:trigger Layered(walkableGrid, gridResolution, s, v, dist[v])} ::
      v in visited && v in dist ==> Layered(walkableGrid, gridResolution, s, v, dist[v])
  }

  /** The visited cells, their parents and their (ghost) distances form a
      breadth-first tree rooted at s. */
  ghost predicate SearchTree(walkableGrid: set<Key>, gridResolution: int, s: Key,
                             visited: set<Key>, parentMap: map<Key, Key>, dist: map<Key, nat>)
  {
    && s in visited && visited <= walkableGrid
    && dist.Keys == visited && dist[s] == 0
    && parentMap.Keys == visited - {s}
    && ParentLinks(gridResolution, visited, parentMap, dist)
    && Layers(walkableGrid, gridResolution, s, visited, dist)
  }

  /** The queue holds distinct visited cells in order of distance, all at distance d or d + 1. */
  ghost predicate Frontier(visited: set<Key>, dist: map<Key, nat>, queue: seq<Key>, d: nat)
  {
    && (forall i :: 0 <= i < |queue| ==> queue[i] in visited && queue[i] in dist && d <= dist[queue[i]] <= d + 1)
    && (forall i, j :: 0 <= i < j < |queue| ==> queue[i] != queue[j])
    && (forall i, j :: 0 <= i < j < |queue| && queue[i] in dist && queue[j] in dist ==> dist[queue[i]] <= dist[queue[j]])
  }

  /** The queue's head is at the search's current layer, and every cell up to
      that layer has been visited. */
  ghost predicate LayerHead(walkableGrid: set<Key>, gridResolution: int, s: Key,
                            visited: set<Key>, queue: seq<Key>, dist: map<Key, nat>)
  {
    |queue| > 0 ==>
      && queue[0] in dist
      && Frontier(visited, dist, queue, dist[queue[0]])
      && Reach(walkableGrid, gridResolution, s, dist[queue[0]]) <= visited
  }

  /** The state while the neighbours of `current`, at distance d, are being expanded;
      visited0 and queue0 are the visited set and queue before the expansion. */
  ghost predicate Expanding(walkableGrid: set<Key>, gridResolution: int, s: Key, endKey: Key,
                            current: Key, d: nat, visited0: set<Key>, queue0: seq<Key>,
                            visited: set<Key>, parentMap: map<Key, Key>, queue: seq<Key>, dist: map<Key, nat>)
  {
    && SearchTree(walkableGrid, gridResolution, s, visited, parentMap, dist)
    && current in visited && current in dist && dist[current] == d && current !in queue
    && visited0 <= visited && (visited == visited0 ==> queue == queue0)
    && (|queue0| > 0 ==> |queue| > 0 && queue[0] == queue0[0])
    && Frontier(visited, dist, queue, d)
    && Settled(walkableGrid, gridResolution, visited, queue, current)
    && Unfinished(visited, queue, endKey)
    && Reach(walkableGrid, gridResolution, s, d) <= visited
  }

  /** What expanding `current` has added so far: the old queue is a prefix of the new
      one; every cell behind it was unvisited before; every newly visited cell is a
      walkable neighbour of `current`, queued, with `current` as its parent; and the
      old parent links are kept. */
  ghost predicate Grown(walkableGrid: set<Key>, gridResolution: int, current: Key,
                        visited0: set<Key>, parentMap0: map<Key, Key>, queue0: seq<Key>,
                        visited: set<Key>, parentMap: map<Key, Key>, queue: seq<Key>)
  {
    && |queue0| <= |queue| && queue[..|queue0|] == queue0
    && (forall i :: |queue0| <= i < |queue| ==> queue[i] in visited && queue[i] !in visited0)
    && (forall k :: k in visited && k !in visited0 ==>
          && k in walkableGrid && k in Neighbors(current, gridResolution) && k in queue
          && k in parentMap && parentMap[k] == current)
    && (forall k :: k in parentMap0 ==> k in parentMap && parentMap[k] == parentMap0[k])
  }

  /** Cells taken off the queue are visited and never queued again. */
  ghost predicate Dequeued(popped: set<Key>, visited: set<Key>, queue: seq<Key>)
  {
    popped <= visited && forall i :: 0 <= i < |queue| ==> queue[i] !in popped
  }

  /** Every walkable cell of `cells` is visited. */
  ghost predicate WalkableVisited(cells: seq<Key>, walkableGrid: set<Key>, visited: set<Key>)
  {
    forall i :: 0 <= i < |cells| && cells[i] in walkableGrid ==> cells[i] in visited
  }

  /** The goal, once visited, is still waiting in the queue. */
  ghost predicate Unfinished(visited: set<Key>, queue: seq<Key>, endKey: Key)
  {
    endKey in visited ==> endKey in queue
  }

  /** Cells taken off the queue, other than `except`, have all their walkable neighbours visited. */
  ghost predicate Settled(walkableGrid: set<Key>, gridResolution: int,
                          visited: set<Key>, queue: seq<Key>, except: Key)
  {
    forall v :: v in visited && v !in queue && v != except ==> Closed(walkableGrid, gridResolution, v, visited)
  }

  // ---------------------------------------------------------------------------
  // The search

  /** findPath: None when an endpoint does not snap to a walkable cell or the goal
      cannot be reached; otherwise a shortest walk between the snapped endpoints. */
  method FindPath(start: Point, end: Point, mapData: MapData, walkableGrid: set<Key>) returns (r: Option<seq<Key>>)
    requires mapData.gridResolution > 0
    ensures var s := PointToKey(SnapToGrid(start, mapData.gridResolution));
            var e := PointToKey(SnapToGrid(end, mapData.gridResolution));
            && (r.Some? <==> s in walkableGrid && e in walkableGrid && Connected(walkableGrid, mapData.gridResolution, s, e))
            && (r.Some? ==> ShortestWalk(r.value, walkableGrid, mapData.gridResolution, s, e))
  {
    var gridResolution := mapData.gridResolution;
    var startNode := SnapToGrid(start, gridResolution);
    var endNode := SnapToGrid(end, gridResolution);
    var startKey := PointToKey(startNode);
    var endKey := PointToKey(endNode);

    if startKey !in walkableGrid || endKey !in walkableGrid {
      return None;
    }

    var queue := [startKey];
    var visited := {startKey};
    var parentMap: map<Key, Key> := map[];
    ghost var dist: map<Key, nat> := map[startKey := 0];
    ghost var popped: set<Key> := {};

    while |queue| > 0
      invariant SearchTree(walkableGrid, gridResolution, startKey, visited, parentMap, dist)
      invariant Settled(walkableGrid, gridResolution, visited, queue, endKey)
      invariant Unfinished(visited, queue, endKey)
      invariant LayerHead(walkableGrid, gridResolution, startKey, visited, queue, dist)
      invariant Dequeued(popped, visited, queue)
      decreases walkableGrid - visited, |queue|
    {
      var current := queue[0];
      ghost var d := dist[current];
      ghost var visited0 := visited;
      FrontierPop(visited, dist, queue, d);
      PopDequeued(popped, visited, queue);
      queue := queue[1..];
      popped := popped + {current};
      ghost var parentMap0, queue0 := parentMap, queue;

      if current == endKey {
        var path := Reconstruct(walkableGrid, gridResolution, startKey, endKey, visited, parentMap, dist);
        return Some(path);
      }

      visited, parentMap, queue, dist :=
        VisitNeighbors(walkableGrid, gridResolution, startKey, endKey, current, d, visited, parentMap, queue, dist);
      NeverRequeued(walkableGrid, gridResolution, current, popped, visited0, parentMap0, queue0, visited, parentMap, queue);
      NextHead(walkableGrid, gridResolution, startKey, endKey, visited, parentMap, queue, dist, d);
      if visited != visited0 {
        FewerUnvisited(walkableGrid, visited0, visited);
      }
    }

    NoWalkOutOfClosedSet(walkableGrid, gridResolution, startKey, endKey, visited);
    return None;
  }

  /** The neighbour loop of the search: every walkable, unvisited neighbour of
      `current` is visited, given `current` as its parent and queued. */
  method VisitNeighbors(walkableGrid: set<Key>, gridResolution: int, startKey: Key, endKey: Key,
                        current: Key, ghost d: nat,
                        visited: set<Key>, parentMap: map<Key, Key>, queue: seq<Key>, ghost dist: map<Key, nat>)
    returns (visited': set<Key>, parentMap': map<Key, Key>, queue': seq<Key>, ghost dist': map<Key, nat>)
    requires SearchTree(walkableGrid, gridResolution, startKey, visited, parentMap, dist)
    requires current in visited && current in dist && dist[current] == d && current !in queue && current != endKey
    requires Frontier(visited, dist, queue, d)
    requires Settled(walkableGrid, gridResolution, visited, queue, current)
    requires Unfinished(visited, queue, endKey)
    requires Reach(walkableGrid, gridResolution, startKey, d) <= visited
    ensures SearchTree(walkableGrid, gridResolution, startKey, visited', parentMap', dist')
    ensures Frontier(visited', dist', queue', d)
    ensures Settled(walkableGrid, gridResolution, visited', queue', endKey)
    ensures Unfinished(visited', queue', endKey)
    ensures Reach(walkableGrid, gridResolution, startKey, d) <= visited'
    ensures visited <= visited' && (visited' == visited ==> queue' == queue)
    ensures |queue| > 0 ==> |queue'| > 0 && queue'[0] == queue[0]
    ensures Grown(walkableGrid, gridResolution, current, visited, parentMap, queue, visited', parentMap', queue')
    ensures WalkableVisited(Neighbors(current, gridResolution), walkableGrid, visited')
  {
    var neighbors := Neighbors(current, gridResolution);
    visited', parentMap', queue', dist' := visited, parentMap, queue, dist;
    for j := 0 to |neighbors|
      invariant Expanding(walkableGrid, gridResolution, startKey, endKey, current, d, visited, queue,
                          visited', parentMap', queue', dist')
      invariant WalkableVisited(neighbors[..j], walkableGrid, visited')
      invariant Grown(walkableGrid, gridResolution, current, visited, parentMap, queue, visited', parentMap', queue')
    {
      var neighbor := neighbors[j];
      ghost var visited0, parentMap0, queue0, dist0 := visited', parentMap', queue', dist';
      if neighbor in walkableGrid && neighbor !in visited' {
        visited' := visited' + {neighbor};
        parentMap' := parentMap'[neighbor := current];
        dist' := dist'[neighbor := d + 1];
        queue' := queue' + [neighbor];
      }
      ExpandStep(walkableGrid, gridResolution, startKey, endKey, current, d, visited, queue, neighbors, j,
                 visited0, parentMap0, queue0, dist0, visited', parentMap', queue', dist');
      GrowStep(walkableGrid, gridResolution, current, visited, parentMap, queue, neighbors[j],
               visited0, parentMap0, queue0, visited', parentMap', queue');
    }
    assert neighbors[..|neighbors|] == neighbors;
    NeighborsCoverAdjacent(walkableGrid, gridResolution, current, visited');
    assert WalkableVisited(neighbors, walkableGrid, visited');
  }

  /** Follows the parent links back from the goal, prepending each cell, until the root. */
  method Reconstruct(walkableGrid: set<Key>, gridResolution: int, startKey: Key, endKey: Key,
                     visited: set<Key>, parentMap: map<Key, Key>, ghost dist: map<Key, nat>)
    returns (path: seq<Key>)
    requires SearchTree(walkableGrid, gridResolution, startKey, visited, parentMap, dist)
    requires endKey in visited
    ensures ShortestWalk(path, walkableGrid, gridResolution, startKey, endKey)
  {
    path := [];
    var crawl: Option<Key> := Some(endKey);
    while crawl.Some?
      invariant crawl.Some? ==> crawl.value in visited
      invariant crawl.Some? && |path| == 0 ==> crawl.value == endKey
      invariant crawl.Some? && |path| > 0 ==> Adjacent(crawl.value, path[0], gridResolution)
      invariant crawl.None? ==> |path| > 0 && path[0] == startKey
      invariant |path| > 0 ==> path[|path| - 1] == endKey
      invariant forall i :: 0 <= i < |path| ==>
                  path[i] in visited && dist[path[i]] == (if crawl.Some? then dist[crawl.value] + 1 else 0) + i
      invariant forall i :: 0 <= i < |path| - 1 ==> Adjacent(path[i], path[i + 1], gridResolution)
      decreases if crawl.Some? then dist[crawl.value] + 1 else 0
    {
      path := [crawl.value] + path;
      crawl := if crawl.value in parentMap then Some(parentMap[crawl.value]) else None;
    }
    assert dist[endKey] == |path| - 1;
    ShortestByLayer(walkableGrid, gridResolution, startKey, endKey, path);
  }

  // ---------------------------------------------------------------------------
  // Lemmas behind the search

  /** Visiting one unvisited walkable neighbour keeps the expansion state. */
  lemma ExpandOne(walkableGrid: set<Key>, gridResolution: int, s: Key, endKey: Key,
                  current: Key, d: nat, visited0: set<Key>, queue0: seq<Key>,
                  visited: set<Key>, parentMap: map<Key, Key>, queue: seq<Key>, dist: map<Key, nat>, neighbor: Key)
    requires Expanding(walkableGrid, gridResolution, s, endKey, current, d, visited0, queue0,
                       visited, parentMap, queue, dist)
    requires neighbor in walkableGrid && neighbor !in visited && Adjacent(current, neighbor, gridResolution)
    ensures Expanding(walkableGrid, gridResolution, s, endKey, current, d, visited0, queue0,
                      visited + {neighbor}, parentMap[neighbor := current], queue + [neighbor], dist[neighbor := d + 1])
  {
    VisitKeepsTree(walkableGrid, gridResolution, s, visited, parentMap, dist, current, d, neighbor);
    FrontierPush(visited, dist, queue, d, neighbor);
  }

  /** Taking the head off the queue records it as dequeued. */
  lemma PopDequeued(popped: set<Key>, visited: set<Key>, queue: seq<Key>)
    requires Dequeued(popped, visited, queue)
    requires |queue| > 0 && queue[0] in visited && queue[0] !in queue[1..]
    ensures Dequeued(popped + {queue[0]}, visited, queue[1..])
  {
  }

  /** One turn of the neighbour loop keeps the expansion state, and one more
      neighbour is covered. */
  lemma ExpandStep(walkableGrid: set<Key>, gridResolution: int, s: Key, endKey: Key,
                   current: Key, d: nat, visited0: set<Key>, queue0: seq<Key>, neighbors: seq<Key>, j: int,
                   visited: set<Key>, parentMap: map<Key, Key>, queue: seq<Key>, dist: map<Key, nat>,
                   visited': set<Key>, parentMap': map<Key, Key>, queue': seq<Key>, dist': map<Key, nat>)
    requires neighbors == Neighbors(current, gridResolution) && 0 <= j < |neighbors|
    requires Expanding(walkableGrid, gridResolution, s, endKey, current, d, visited0, queue0,
                       visited, parentMap, queue, dist)
    requires WalkableVisited(neighbors[..j], walkableGrid, visited)
    requires neighbors[j] in walkableGrid && neighbors[j] !in visited ==>
               && visited' == visited + {neighbors[j]} && parentMap' == parentMap[neighbors[j] := current]
               && dist' == dist[neighbors[j] := d + 1] && queue' == queue + [neighbors[j]]
    requires !(neighbors[j] in walkableGrid && neighbors[j] !in visited) ==>
               visited' == visited && parentMap' == parentMap && dist' == dist && queue' == queue
    ensures Expanding(walkableGrid, gridResolution, s, endKey, current, d, visited0, queue0,
                      visited', parentMap', queue', dist')
    ensures WalkableVisited(neighbors[..j + 1], walkableGrid, visited')
  {
    var neighbor := neighbors[j];
    if neighbor in walkableGrid && neighbor !in visited {
      ExpandOne(walkableGrid, gridResolution, s, endKey, current, d, visited0, queue0,
                visited, parentMap, queue, dist, neighbor);
    }
    WalkableVisitedStep(neighbors[..j], neighbor, walkableGrid, visited, visited');
    assert neighbors[..j] + [neighbor] == neighbors[..j + 1];
  }

  /** One turn of the neighbour loop keeps the record of what the expansion added. */
  lemma GrowStep(walkableGrid: set<Key>, gridResolution: int, current: Key,
                 visited0: set<Key>, parentMap0: map<Key, Key>, queue0: seq<Key>, neighbor: Key,
                 visited: set<Key>, parentMap: map<Key, Key>, queue: seq<Key>,
                 visited': set<Key>, parentMap': map<Key, Key>, queue': seq<Key>)
    requires neighbor in Neighbors(current, gridResolution)
    requires visited0 <= visited && parentMap.Keys <= visited
    requires Grown(walkableGrid, gridResolution, current, visited0, parentMap0, queue0, visited, parentMap, queue)
    requires neighbor in walkableGrid && neighbor !in visited ==>
               && visited' == visited + {neighbor} && parentMap' == parentMap[neighbor := current]
               && queue' == queue + [neighbor]
    requires !(neighbor in walkableGrid && neighbor !in visited) ==>
               visited' == visited && parentMap' == parentMap && queue' == queue
    ensures Grown(walkableGrid, gridResolution, current, visited0, parentMap0, queue0, visited', parentMap', queue')
  {
    if neighbor in walkableGrid && neighbor !in visited {
      assert queue'[..|queue0|] == queue[..|queue0|];
      forall k | k in parentMap0
        ensures k in parentMap' && parentMap'[k] == parentMap0[k]
      {
        assert k in parentMap;
      }
    }
  }

  /** A cell already taken off the queue is not queued again: the expansion queues
      only cells that were unvisited. */
  lemma NeverRequeued(walkableGrid: set<Key>, gridResolution: int, current: Key, popped: set<Key>,
                      visited: set<Key>, parentMap: map<Key, Key>, queue: seq<Key>,
                      visited': set<Key>, parentMap': map<Key, Key>, queue': seq<Key>)
    requires Dequeued(popped, visited, queue) && visited <= visited'
    requires Grown(walkableGrid, gridResolution, current, visited, parentMap, queue, visited', parentMap', queue')
    ensures Dequeued(popped, visited', queue')
  {
    forall i | 0 <= i < |queue'|
      ensures queue'[i] !in popped
    {
      if i < |queue| {
        assert queue'[i] == queue[i];
      }
    }
  }

  lemma WalkableVisitedStep(cells: seq<Key>, c: Key, walkableGrid: set<Key>, visited: set<Key>, visited': set<Key>)
    requires WalkableVisited(cells, walkableGrid, visited) && visited <= visited'
    requires c in walkableGrid ==> c in visited'
    ensures WalkableVisited(cells + [c], walkableGrid, visited')
  {
  }

  lemma NeighborsCoverAdjacent(walkableGrid: set<Key>, gridResolution: int, c: Key, visited: set<Key>)
    requires WalkableVisited(Neighbors(c, gridResolution), walkableGrid, visited)
    ensures Closed(walkableGrid, gridResolution, c, visited)
  {
    var n := Neighbors(c, gridResolution);
    forall w | w in walkableGrid && Adjacent(c, w, gridResolution)
      ensures w in visited
    {
      if w == n[0] {
      } else if w == n[1] {
      } else if w == n[2] {
      } else {
        assert w == n[3];
      }
    }
  }

  /** Visiting an unvisited walkable neighbour of a cell at distance d, at distance
      d + 1 with that cell as parent, keeps the breadth-first tree. */
  lemma VisitKeepsTree(walkableGrid: set<Key>, gridResolution: int, s: Key,
                       visited: set<Key>, parentMap: map<Key, Key>, dist: map<Key, nat>,
                       current: Key, d: nat, neighbor: Key)
    requires SearchTree(walkableGrid, gridResolution, s, visited, parentMap, dist)
    requires current in dist && dist[current] == d
    requires Reach(walkableGrid, gridResolution, s, d) <= visited
    requires neighbor in walkableGrid && neighbor !in visited
    requires Adjacent(current, neighbor, gridResolution)
    ensures SearchTree(walkableGrid, gridResolution, s, visited + {neighbor},
                       parentMap[neighbor := current], dist[neighbor := d + 1])
  {
    assert Layered(walkableGrid, gridResolution, s, current, d);
    assert neighbor !in Reach(walkableGrid, gridResolution, s, d);
    NextCellLayered(walkableGrid, gridResolution, s, current, neighbor, d);
    VisitKeepsParents(gridResolution, visited, parentMap, dist, current, neighbor, d + 1);
    VisitKeepsLayers(walkableGrid, gridResolution, s, visited, dist, neighbor, d + 1);
    var visited', parentMap', dist' := visited + {neighbor}, parentMap[neighbor := current], dist[neighbor := d + 1];
    assert dist'.Keys == visited';
    assert parentMap'.Keys == visited' - {s};
    assert ParentLinks(gridResolution, visited', parentMap', dist');
    assert Layers(walkableGrid, gridResolution, s, visited', dist');
    assert s in visited' && visited' <= walkableGrid && dist'[s] == 0;
    assert SearchTree(walkableGrid, gridResolution, s, visited', parentMap', dist');
  }

  lemma VisitKeepsParents(gridResolution: int, visited: set<Key>, parentMap: map<Key, Key>, dist: map<Key, nat>,
                          current: Key, neighbor: Key, n: nat)
    requires dist.Keys == visited && parentMap.Keys <= visited
    requires ParentLinks(gridResolution, visited, parentMap, dist)
    requires current in visited && neighbor !in visited && n == dist[current] + 1
    requires Adjacent(current, neighbor, gridResolution)
    ensures ParentLinks(gridResolution, visited + {neighbor}, parentMap[neighbor := current], dist[neighbor := n])
  {
    var visited', parentMap', dist' := visited + {neighbor}, parentMap[neighbor := current], dist[neighbor := n];
    forall v | v in parentMap'
      ensures parentMap'[v] in visited' && parentMap'[v] in dist' && v in dist'
      ensures Adjacent(parentMap'[v], v, gridResolution)
      ensures dist'[v] == dist'[parentMap'[v]] + 1
    {
      if v != neighbor {
        assert parentMap'[v] == parentMap[v] && parentMap[v] != neighbor;
      }
    }
  }

  lemma VisitKeepsLayers(walkableGrid: set<Key>, gridResolution: int, s: Key,
                         visited: set<Key>, dist: map<Key, nat>, neighbor: Key, n: nat)
    requires Layers(walkableGrid, gridResolution, s, visited, dist)
    requires Layered(walkableGrid, gridResolution, s, neighbor, n)
    ensures Layers(walkableGrid, gridResolution, s, visited + {neighbor}, dist[neighbor := n])
  {
    forall v | v in visited + {neighbor} && v in dist[neighbor := n]
      ensures Layered(walkableGrid, gridResolution, s, v, dist[neighbor := n][v])
    {
      if v != neighbor {
        assert dist[neighbor := n][v] == dist[v];
      }
    }
  }

  /** An unvisited walkable neighbour of a cell exactly d steps from s, when every
      cell within d steps is visited, is exactly d + 1 steps from s. */
  lemma NextCellLayered(walkableGrid: set<Key>, gridResolution: int, s: Key, current: Key, neighbor: Key, d: nat)
    requires Layered(walkableGrid, gridResolution, s, current, d)
    requires neighbor in walkableGrid && Adjacent(current, neighbor, gridResolution)
    requires neighbor !in Reach(walkableGrid, gridResolution, s, d)
    ensures Layered(walkableGrid, gridResolution, s, neighbor, d + 1)
  {
    var r := Reach(walkableGrid, gridResolution, s, d);
    assert current in r;
    assert Reach(walkableGrid, gridResolution, s, d + 1)
        == r + set k | k in walkableGrid && exists j :: j in r && Adjacent(j, k, gridResolution);
  }

  /** After a cell's neighbours are expanded the queue's head is at layer d or d + 1,
      and in the latter case layer d + 1 is complete. */
  lemma NextHead(walkableGrid: set<Key>, gridResolution: int, s: Key, endKey: Key,
                 visited: set<Key>, parentMap: map<Key, Key>, queue: seq<Key>, dist: map<Key, nat>, d: nat)
    requires SearchTree(walkableGrid, gridResolution, s, visited, parentMap, dist)
    requires Frontier(visited, dist, queue, d)
    requires Settled(walkableGrid, gridResolution, visited, queue, endKey)
    requires Unfinished(visited, queue, endKey)
    requires Reach(walkableGrid, gridResolution, s, d) <= visited
    ensures LayerHead(walkableGrid, gridResolution, s, visited, queue, dist)
  {
    if |queue| > 0 {
      assert queue[0] in dist && d <= dist[queue[0]] <= d + 1;
      if dist[queue[0]] == d + 1 {
        FrontierAdvance(visited, dist, queue, d);
        NextLayerCovered(walkableGrid, gridResolution, s, endKey, visited, queue, dist, d);
      }
    }
  }

  /** Visiting a new cell shrinks the set of walkable cells still unvisited. */
  lemma FewerUnvisited(walkableGrid: set<Key>, visited: set<Key>, visited': set<Key>)
    requires visited <= visited' <= walkableGrid && visited != visited'
    ensures walkableGrid - visited' < walkableGrid - visited
  {
    var x :| x in visited' && x !in visited;
    assert x in walkableGrid - visited && x !in walkableGrid - visited';
  }

  lemma FrontierPop(visited: set<Key>, dist: map<Key, nat>, queue: seq<Key>, d: nat)
    requires Frontier(visited, dist, queue, d) && |queue| > 0
    ensures queue[0] !in queue[1..]
    ensures Frontier(visited, dist, queue[1..], d)
  {
    forall i | 0 <= i < |queue[1..]|
      ensures queue[1..][i] != queue[0]
    {
      assert queue[1..][i] == queue[i + 1];
    }
  }

  lemma FrontierPush(visited: set<Key>, dist: map<Key, nat>, queue: seq<Key>, d: nat, neighbor: Key)
    requires Frontier(visited, dist, queue, d) && neighbor !in visited
    ensures Frontier(visited + {neighbor}, dist[neighbor := d + 1], queue + [neighbor], d)
  {
  }

  /** When the head of the queue is one layer further out, the whole queue is. */
  lemma FrontierAdvance(visited: set<Key>, dist: map<Key, nat>, queue: seq<Key>, d: nat)
    requires Frontier(visited, dist, queue, d) && |queue| > 0 && queue[0] in dist && dist[queue[0]] == d + 1
    ensures Frontier(visited, dist, queue, d + 1)
  {
    forall i | 0 <= i < |queue|
      ensures dist[queue[i]] >= d + 1
    {
      if i > 0 {
        assert dist[queue[0]] <= dist[queue[i]];
      }
    }
  }

  /** Once every visited cell within distance d is closed, every cell reachable in
      d + 1 steps is visited. */
  lemma NextLayerCovered(walkableGrid: set<Key>, gridResolution: int, s: Key, endKey: Key,
                         visited: set<Key>, queue: seq<Key>, dist: map<Key, nat>, d: nat)
    requires dist.Keys == visited && Layers(walkableGrid, gridResolution, s, visited, dist)
    requires Reach(walkableGrid, gridResolution, s, d) <= visited
    requires Settled(walkableGrid, gridResolution, visited, queue, endKey)
    requires Unfinished(visited, queue, endKey)
    requires Frontier(visited, dist, queue, d + 1)
    ensures Reach(walkableGrid, gridResolution, s, d + 1) <= visited
  {
    var r := Reach(walkableGrid, gridResolution, s, d);
    assert Reach(walkableGrid, gridResolution, s, d + 1)
        == r + set k | k in walkableGrid && exists j :: j in r && Adjacent(j, k, gridResolution);
    forall k | k in Reach(walkableGrid, gridResolution, s, d + 1) && k !in r
      ensures k in visited
    {
      var j :| j in r && Adjacent(j, k, gridResolution);
      assert j in visited;
      LayerBound(walkableGrid, gridResolution, s, j, dist[j], d);
      assert j !in queue;
      assert Closed(walkableGrid, gridResolution, j, visited);
    }
  }

  /** A cell exactly n steps from s that is reachable within d steps has n <= d. */
  lemma LayerBound(walkableGrid: set<Key>, gridResolution: int, s: Key, v: Key, n: nat, d: nat)
    requires Layered(walkableGrid, gridResolution, s, v, n)
    requires v in Reach(walkableGrid, gridResolution, s, d)
    ensures n <= d
  {
    if n > d {
      ReachHas(walkableGrid, gridResolution, s, d, n - 1, v);
    }
  }

  lemma ReachHas(walkableGrid: set<Key>, gridResolution: int, s: Key, a: nat, b: nat, v: Key)
    requires a <= b && v in Reach(walkableGrid, gridResolution, s, a)
    ensures v in Reach(walkableGrid, gridResolution, s, b)
  {
    ReachMonotone(walkableGrid, gridResolution, s, a, b);
  }

  lemma {:induction false} ReachMonotone(walkableGrid: set<Key>, gridResolution: int, s: Key, a: nat, b: nat)
    requires a <= b
    ensures Reach(walkableGrid, gridResolution, s, a) <= Reach(walkableGrid, gridResolution, s, b)
    decreases b
  {
    if a < b {
      ReachMonotone(walkableGrid, gridResolution, s, a, b - 1);
    }
  }

  /** The last cell of a walk from s of n + 1 cells is reachable in n steps. */
  lemma {:induction false} WalkEndsInReach(walkableGrid: set<Key>, gridResolution: int, s: Key, q: seq<Key>)
    requires IsWalk(q, walkableGrid, gridResolution) && q[0] == s
    ensures q[|q| - 1] in Reach(walkableGrid, gridResolution, s, |q| - 1)
    decreases |q|
  {
    if |q| > 1 {
      var q' := q[..|q| - 1];
      assert IsWalk(q', walkableGrid, gridResolution);
      WalkEndsInReach(walkableGrid, gridResolution, s, q');
      assert Adjacent(q'[|q'| - 1], q[|q| - 1], gridResolution);
    }
  }

  /** A walk that ends at a cell exactly |p| - 1 steps from its start is a shortest walk. */
  lemma ShortestByLayer(walkableGrid: set<Key>, gridResolution: int, s: Key, e: Key, p: seq<Key>)
    requires WalkFromTo(p, walkableGrid, gridResolution, s, e)
    requires Layered(walkableGrid, gridResolution, s, e, |p| - 1)
    ensures ShortestWalk(p, walkableGrid, gridResolution, s, e)
  {
    forall q | WalkFromTo(q, walkableGrid, gridResolution, s, e)
      ensures |p| <= |q|
    {
      WalkEndsInReach(walkableGrid, gridResolution, s, q);
      if |q| < |p| {
        ReachMonotone(walkableGrid, gridResolution, s, |q| - 1, |p| - 2);
      }
    }
  }

  /** A walk that starts inside a set closed under stepping stays inside it. */
  lemma {:induction false} WalkStaysInClosedSet(walkableGrid: set<Key>, gridResolution: int, closed: set<Key>, q: seq<Key>)
    requires forall v :: v in closed ==> Closed(walkableGrid, gridResolution, v, closed)
    requires IsWalk(q, walkableGrid, gridResolution) && q[0] in closed
    ensures q[|q| - 1] in closed
    decreases |q|
  {
    if |q| > 1 {
      var q' := q[..|q| - 1];
      assert IsWalk(q', walkableGrid, gridResolution);
      WalkStaysInClosedSet(walkableGrid, gridResolution, closed, q');
      assert Adjacent(q'[|q'| - 1], q[|q| - 1], gridResolution);
    }
  }

  lemma NoWalkOutOfClosedSet(walkableGrid: set<Key>, gridResolution: int, s: Key, e: Key, visited: set<Key>)
    requires s in visited && e !in visited
    requires forall v :: v in visited ==> Closed(walkableGrid, gridResolution, v, visited)
    ensures !Connected(walkableGrid, gridResolution, s, e)
  {
    if Connected(walkableGrid, gridResolution, s, e) {
      var q :| WalkFromTo(q, walkableGrid, gridResolution, s, e);
      WalkStaysInClosedSet(walkableGrid, gridResolution, visited, q);
    }
  }

  /** When both endpoints are the same walkable cell, the shortest walk is that cell alone. */
  lemma ShortestWalkToItself(walkableGrid: set<Key>, gridResolution: int, s: Key, p: seq<Key>)
    requires ShortestWalk(p, walkableGrid, gridResolution, s, s)
    ensures p == [s]
  {
    assert WalkFromTo([s], walkableGrid, gridResolution, s, s);
  }

  /** A shortest walk never visits a cell twice. */
  lemma ShortestWalkIsSimple(walkableGrid: set<Key>, gridResolution: int, a: Key, b: Key, p: seq<Key>)
    requires ShortestWalk(p, walkableGrid, gridResolution, a, b)
    ensures forall i, j :: 0 <= i < j < |p| ==> p[i] != p[j]
  {
    forall i, j | 0 <= i < j < |p|
      ensures p[i] != p[j]
    {
      if p[i] == p[j] {
        var q := p[..i] + p[j..];
        Shortcut(walkableGrid, gridResolution, p, i, j);
        assert WalkFromTo(q, walkableGrid, gridResolution, a, b);
      }
    }
  }

  /** Cutting out the loop between two visits of the same cell leaves a walk
      with the same ends. */
  lemma Shortcut(walkableGrid: set<Key>, gridResolution: int, p: seq<Key>, i: int, j: int)
    requires IsWalk(p, walkableGrid, gridResolution)
    requires 0 <= i < j < |p| && p[i] == p[j]
    ensures var q := p[..i] + p[j..];
            && IsWalk(q, walkableGrid, gridResolution)
            && q[0] == p[0] && q[|q| - 1] == p[|p| - 1] && |q| < |p|
  {
    var q := p[..i] + p[j..];
    forall k | 0 <= k < |q|
      ensures q[k] in walkableGrid
    {
      if k < i { assert q[k] == p[k]; } else { assert q[k] == p[k - i + j]; }
    }
    forall k | 0 <= k < |q| - 1
      ensures Adjacent(q[k], q[k + 1], gridResolution)
    {
      if k + 1 < i {
        assert q[k] == p[k] && q[k + 1] == p[k + 1];
      } else if k + 1 == i {
        assert q[k] == p[k] && q[k + 1] == p[j] == p[k + 1];
      } else {
        assert q[k] == p[k - i + j] && q[k + 1] == p[k + 1 - i + j];
      }
    }
  }
}
