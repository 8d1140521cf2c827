/**
 * The walkable grid of services/pathfinding.ts: the keys under which lattice
 * points are stored, the proximity test against wall segments, and the
 * rasteriser that collects every lattice point not too close to a wall.
 */
module Grid {
  import opened Types

  /** The key of a point in the walkable set: its two coordinates, without its floor. */
  datatype Key = Key(x: int, y: int)

  /** pointToKey: the key of a point carries its coordinates and drops its floor. */
  function PointToKey(p: Point): (k: Key)
    ensures k.x == p.x && k.y == p.y
  {
    Key(p.x, p.y)
  }

  /** isWalkable: a point is walkable exactly when its coordinates are a key of the grid. */
  function IsWalkable(p: Point, walkableGrid: set<Key>): (walkable: bool)
    ensures walkable <==> Key(p.x, p.y) in walkableGrid
  {
    PointToKey(p) in walkableGrid
  }

  /** Two points are looked up under the same key exactly when their coordinates agree,
      whatever floors they name; so walkability never depends on the floor. */
  lemma KeyIgnoresFloor(p: Point, q: Point, walkableGrid: set<Key>)
    ensures PointToKey(p) == PointToKey(q) <==> p.x == q.x && p.y == q.y
    ensures p.x == q.x && p.y == q.y ==> (IsWalkable(p, walkableGrid) <==> IsWalkable(q, walkableGrid))
  {
  }

  // ---------------------------------------------------------------------------
  // Proximity of a lattice point to a wall segment, in exact arithmetic

  /** Squared Euclidean distance between (x1, y1) and (x2, y2). */
  function DistSq(x1: real, y1: real, x2: real, y2: real): real
  {
    (x1 - x2) * (x1 - x2) + (y1 - y2) * (y1 - y2)
  }

  /** Squared length of a wall; a wall of length zero blocks nothing. */
  function WallLengthSq(w: Wall): int
  {
    (w.start.x - w.end.x) * (w.start.x - w.end.x) + (w.start.y - w.end.y) * (w.start.y - w.end.y)
  }

  /** Where the perpendicular from p meets the line of w, as a fraction of the
      way from w.start to w.end, clamped to the segment. */
  function ProjectionParam(p: Key, w: Wall): (t: real)
    requires WallLengthSq(w) != 0
    ensures 0.0 <= t <= 1.0
  {
    Max(0.0, Min(1.0, Dot(p, w) as real / WallLengthSq(w) as real))
  }

  /** The dot product of p - w.start with w.end - w.start. */
  function Dot(p: Key, w: Wall): int
  {
    (p.x - w.start.x) * (w.end.x - w.start.x) + (p.y - w.start.y) * (w.end.y - w.start.y)
  }

  /** Squared distance from p to the clamped projection of p onto w. */
  function ProjectionDistSq(p: Key, w: Wall): real
    requires WallLengthSq(w) != 0
  {
    var t := ProjectionParam(p, w);
    DistSq(p.x as real, p.y as real,
           w.start.x as real + t * (w.end.x - w.start.x) as real,
           w.start.y as real + t * (w.end.y - w.start.y) as real)
  }

  /** The blocking radius squared: (0.4 * gridResolution) ** 2. */
  function Threshold(gridResolution: int): real
  {
    (gridResolution as real * 0.4) * (gridResolution as real * 0.4)
  }

  /** Wall w blocks lattice point p. */
  predicate TooClose(p: Key, w: Wall, gridResolution: int)
  {
    WallLengthSq(w) != 0 && ProjectionDistSq(p, w) < Threshold(gridResolution)
  }

  ghost predicate Blocked(p: Key, walls: seq<Wall>, gridResolution: int)
  {
    exists i :: 0 <= i < |walls| && TooClose(p, walls[i], gridResolution)
  }

  /** The lattice the rasteriser visits: multiples of the resolution in [0, width) x [0, height). */
  ghost predicate OnLattice(mapData: MapData, k: Key)
    requires mapData.gridResolution > 0
  {
    && 0 <= k.x < mapData.width && k.x % mapData.gridResolution == 0
    && 0 <= k.y < mapData.height && k.y % mapData.gridResolution == 0
  }

  ghost predicate IsWalkableCell(mapData: MapData, walls: seq<Wall>, k: Key)
    requires mapData.gridResolution > 0
  {
    OnLattice(mapData, k) && !Blocked(k, walls, mapData.gridResolution)
  }

  /** The walkable set the rasteriser is meant to build. */
  ghost function WalkableCells(mapData: MapData, walls: seq<Wall>): set<Key>
    requires mapData.gridResolution > 0
  {
    set x: int, y: int | 0 <= x < mapData.width && 0 <= y < mapData.height && IsWalkableCell(mapData, walls, Key(x, y))
      :: Key(x, y)
  }

  lemma WalkableCellsMembership(mapData: MapData, walls: seq<Wall>, k: Key)
    requires mapData.gridResolution > 0
    ensures k in WalkableCells(mapData, walls) <==> IsWalkableCell(mapData, walls, k)
  {
    if IsWalkableCell(mapData, walls, k) {
      assert k == Key(k.x, k.y);
    }
  }

  // ---------------------------------------------------------------------------
  // The rasteriser

  /** Stepping a multiple of `step` by `step` gives a multiple of `step`. */
  lemma NextMultiple(v: int, step: int)
    requires step > 0 && v % step == 0
    ensures (v + step) % step == 0
  {
    var q, q', m' := v / step, (v + step) / step, (v + step) % step;
    assert v == step * q;
    assert v + step == step * q' + m';
    assert m' == step * (q + 1 - q');
    ZeroFactor(q + 1 - q', step);
  }

  /** Every multiple of `step` leaves remainder zero. */
  lemma MultipleHasNoRemainder(n: int, step: int)
    requires step > 0
    ensures (n * step) % step == 0
  {
    var q, m := (n * step) / step, (n * step) % step;
    assert n * step == step * q + m;
    assert m == step * (n - q);
    ZeroFactor(n - q, step);
  }

  /** Strictly between two consecutive multiples of `step` there is no multiple of `step`. */
  lemma NoMultipleBetween(v: int, w: int, step: int)
    requires step > 0 && v % step == 0 && v < w < v + step
    ensures w % step != 0
  {
    if w % step == 0 {
      var q, q' := v / step, w / step;
      assert v == step * q && w == step * q';
      assert w - v == step * (q' - q);
      ZeroFactor(q' - q, step);
    }
  }

  lemma ZeroFactor(z: int, step: int)
    requires step > 0 && 0 <= step * z < step
    ensures z == 0
  {
    if z >= 1 {
      assert step * z == step * (z - 1) + step;
      ProductNonNegative(z - 1, step);
    } else if z <= -1 {
      assert step * z == step * (z + 1) - step;
      ProductNonPositive(z + 1, step);
    }
  }

  lemma ProductNonNegative(z: int, step: int)
    requires step > 0 && z >= 0
    ensures step * z >= 0
  {
  }

  lemma ProductNonPositive(z: int, step: int)
    requires step > 0 && z <= 0
    ensures step * z <= 0
  {
  }

  /** The wall scan for one lattice point: skips walls of length zero and stops
      at the first wall that passes within the blocking radius. */
  method IsInsideWall(point: Key, walls: seq<Wall>, gridResolution: int) returns (isInsideWall: bool)
    ensures isInsideWall <==> Blocked(point, walls, gridResolution)
  {
    isInsideWall := false;
    for i := 0 to |walls|
      invariant !isInsideWall
      invariant forall j :: 0 <= j < i ==> !TooClose(point, walls[j], gridResolution)
    {
      var start, end := walls[i].start, walls[i].end;
      var l2 := WallLengthSq(walls[i]);
      if l2 == 0 {
        continue;
      }
      var t := Dot(point, walls[i]) as real / l2 as real;
      t := Max(0.0, Min(1.0, t));
      var projectionX := start.x as real + t * (end.x - start.x) as real;
      var projectionY := start.y as real + t * (end.y - start.y) as real;
      assert t == ProjectionParam(point, walls[i]);
      assert DistSq(point.x as real, point.y as real, projectionX, projectionY) == ProjectionDistSq(point, walls[i]);
      if DistSq(point.x as real, point.y as real, projectionX, projectionY) < Threshold(gridResolution) {
        assert TooClose(point, walls[i], gridResolution);
        isInsideWall := true;
        break;
      }
    }
  }

  /** Visits the lattice column by column and keeps every point that no wall blocks. */
  method CreateWalkableGrid(mapData: MapData, walls: seq<Wall>) returns (walkable: set<Key>)
    requires mapData.gridResolution > 0
    ensures walkable == WalkableCells(mapData, walls)
  {
    walkable := {};
    var width, height, gridResolution := mapData.width, mapData.height, mapData.gridResolution;
    var x := 0;
    while x < width
      invariant 0 <= x && x % gridResolution == 0
      decreases width - x
      invariant forall k :: k in walkable <==> IsWalkableCell(mapData, walls, k) && k.x < x
    {
      var y := 0;
      while y < height
        invariant 0 <= y && y % gridResolution == 0
        decreases height - y
        invariant forall k :: k in walkable <==>
                    IsWalkableCell(mapData, walls, k) && (k.x < x || (k.x == x && k.y < y))
      {
        var point := Key(x, y);
        var isInsideWall := IsInsideWall(point, walls, gridResolution);
        if !isInsideWall {
          walkable := walkable + {point};
        }
        forall k: Key | k.x == x && y < k.y < y + gridResolution
          ensures !OnLattice(mapData, k)
        {
          NoMultipleBetween(y, k.y, gridResolution);
        }
        NextMultiple(y, gridResolution);
        y := y + gridResolution;
      }
      forall k: Key | x < k.x < x + gridResolution
        ensures !OnLattice(mapData, k)
      {
        NoMultipleBetween(x, k.x, gridResolution);
      }
      NextMultiple(x, gridResolution);
      x := x + gridResolution;
    }
    forall k
      ensures k in walkable <==> k in WalkableCells(mapData, walls)
    {
      WalkableCellsMembership(mapData, walls, k);
    }
  }

  // ---------------------------------------------------------------------------
  // Properties of the walkable set

  /** Every walkable key is a lattice point inside the map. */
  lemma WalkableAreLatticePoints(mapData: MapData, walls: seq<Wall>, k: Key)
    requires mapData.gridResolution > 0
    requires k in WalkableCells(mapData, walls)
    ensures 0 <= k.x < mapData.width && 0 <= k.y < mapData.height
    ensures k.x % mapData.gridResolution == 0 && k.y % mapData.gridResolution == 0
  {
  }

  /** A point that some non-degenerate wall passes within the blocking radius of is never walkable. */
  lemma TooCloseIsBlocked(mapData: MapData, walls: seq<Wall>, k: Key, i: int)
    requires mapData.gridResolution > 0
    requires 0 <= i < |walls| && WallLengthSq(walls[i]) != 0
    requires ProjectionDistSq(k, walls[i]) < Threshold(mapData.gridResolution)
    ensures k !in WalkableCells(mapData, walls)
  {
    WalkableCellsMembership(mapData, walls, k);
  }

  /** A lattice point at least the blocking radius away from every wall is walkable. */
  lemma ClearIsWalkable(mapData: MapData, walls: seq<Wall>, k: Key)
    requires mapData.gridResolution > 0
    requires OnLattice(mapData, k)
    requires forall i :: 0 <= i < |walls| && WallLengthSq(walls[i]) != 0 ==>
               ProjectionDistSq(k, walls[i]) >= Threshold(mapData.gridResolution)
    ensures k in WalkableCells(mapData, walls)
  {
    WalkableCellsMembership(mapData, walls, k);
  }

  /** Without walls the whole lattice is walkable. */
  lemma NoWallsAllWalkable(mapData: MapData, k: Key)
    requires mapData.gridResolution > 0
    ensures k in WalkableCells(mapData, []) <==> OnLattice(mapData, k)
  {
    WalkableCellsMembership(mapData, [], k);
  }

  /** A wall of length zero never blocks anything, so adding one changes nothing. */
  lemma ZeroLengthWallIgnored(mapData: MapData, walls: seq<Wall>, w: Wall)
    requires mapData.gridResolution > 0
    requires WallLengthSq(w) == 0
    ensures WalkableCells(mapData, walls + [w]) == WalkableCells(mapData, walls)
  {
    var walls' := walls + [w];
    forall k
      ensures k in WalkableCells(mapData, walls') <==> k in WalkableCells(mapData, walls)
    {
      WalkableCellsMembership(mapData, walls', k);
      WalkableCellsMembership(mapData, walls, k);
      if Blocked(k, walls', mapData.gridResolution) {
        var i :| 0 <= i < |walls'| && TooClose(k, walls'[i], mapData.gridResolution);
        assert i < |walls|;
        assert walls'[i] == walls[i];
      }
      if Blocked(k, walls, mapData.gridResolution) {
        var i :| 0 <= i < |walls| && TooClose(k, walls[i], mapData.gridResolution);
        assert walls'[i] == walls[i];
      }
    }
  }

  /** More walls can only shrink the walkable set. */
  lemma MoreWallsFewerCells(mapData: MapData, walls: seq<Wall>, walls': seq<Wall>)
    requires mapData.gridResolution > 0
    requires forall w :: w in walls ==> w in walls'
    ensures WalkableCells(mapData, walls') <= WalkableCells(mapData, walls)
  {
    forall k | k in WalkableCells(mapData, walls')
      ensures k in WalkableCells(mapData, walls)
    {
      WalkableCellsMembership(mapData, walls', k);
      WalkableCellsMembership(mapData, walls, k);
      if Blocked(k, walls, mapData.gridResolution) {
        BlockedByMoreWalls(k, walls, walls', mapData.gridResolution);
        assert false;
      }
    }
  }

  lemma BlockedByMoreWalls(k: Key, walls: seq<Wall>, walls': seq<Wall>, gridResolution: int)
    requires forall w :: w in walls ==> w in walls'
    requires Blocked(k, walls, gridResolution)
    ensures Blocked(k, walls', gridResolution)
  {
    var i :| 0 <= i < |walls| && TooClose(k, walls[i], gridResolution);
    assert walls[i] in walls';
    var j :| 0 <= j < |walls'| && walls'[j] == walls[i];
  }

  // ---------------------------------------------------------------------------
  // Geometry of the proximity test

  /** The clamped projection is never farther from p than either end of the wall,
      so the test measures a distance to the segment no larger than the distance
      to its ends. */
  lemma ProjectionNoFartherThanEnds(p: Key, w: Wall)
    requires WallLengthSq(w) != 0
    ensures ProjectionDistSq(p, w) <= DistSq(p.x as real, p.y as real, w.start.x as real, w.start.y as real)
    ensures ProjectionDistSq(p, w) <= DistSq(p.x as real, p.y as real, w.end.x as real, w.end.y as real)
  {
    var ax, ay := (p.x - w.start.x) as real, (p.y - w.start.y) as real;
    var dx, dy := (w.end.x - w.start.x) as real, (w.end.y - w.start.y) as real;
    var t := ProjectionParam(p, w);
    ParamInReals(p, w, ax, ay, dx, dy);
    var l, b := dx * dx + dy * dy, ax * dx + ay * dy;
    ClampedQuadratic(b, l, t);
    DistanceAt(p, w, t, ax, ay, dx, dy, l, b);
    assert ProjectionDistSq(p, w)
        == DistSq(p.x as real, p.y as real, w.start.x as real + t * dx, w.start.y as real + t * dy);
    EndDistances(p, w, ax, ay, dx, dy);
    LeastOfThree(ProjectionDistSq(p, w),
                 DistSq(p.x as real, p.y as real, w.start.x as real, w.start.y as real),
                 DistSq(p.x as real, p.y as real, w.end.x as real, w.end.y as real),
                 ax * ax + ay * ay, t * t * l - 2.0 * t * b, l, b);
  }

  lemma LeastOfThree(atT: real, atStart: real, atEnd: real, a: real, m: real, l: real, b: real)
    requires atT == a + m && atStart == a && atEnd == a - 2.0 * b + l
    requires m <= 0.0 && m <= l - 2.0 * b
    ensures atT <= atStart && atT <= atEnd
  {
  }

  /** The squared distances from p to the wall's ends, in the same terms. */
  lemma EndDistances(p: Key, w: Wall, ax: real, ay: real, dx: real, dy: real)
    requires ax == (p.x - w.start.x) as real && ay == (p.y - w.start.y) as real
    requires dx == (w.end.x - w.start.x) as real && dy == (w.end.y - w.start.y) as real
    ensures DistSq(p.x as real, p.y as real, w.start.x as real, w.start.y as real) == ax * ax + ay * ay
    ensures DistSq(p.x as real, p.y as real, w.end.x as real, w.end.y as real)
         == ax * ax + ay * ay - 2.0 * (ax * dx + ay * dy) + (dx * dx + dy * dy)
  {
    assert p.x as real - w.end.x as real == ax - dx && p.y as real - w.end.y as real == ay - dy;
    ExpandedDistance(ax, ay, dx, dy, 1.0);
  }

  /** The projection parameter in terms of the offset (ax, ay) of p from the wall's
      start and the wall's direction (dx, dy). */
  lemma ParamInReals(p: Key, w: Wall, ax: real, ay: real, dx: real, dy: real)
    requires WallLengthSq(w) != 0
    requires ax == (p.x - w.start.x) as real && ay == (p.y - w.start.y) as real
    requires dx == (w.end.x - w.start.x) as real && dy == (w.end.y - w.start.y) as real
    ensures dx * dx + dy * dy > 0.0
    ensures ProjectionParam(p, w) == Max(0.0, Min(1.0, (ax * dx + ay * dy) / (dx * dx + dy * dy)))
  {
    DotInReals(p, w, ax, ay, dx, dy);
    WallLengthInReals(w, dx, dy);
  }

  lemma DotInReals(p: Key, w: Wall, ax: real, ay: real, dx: real, dy: real)
    requires ax == (p.x - w.start.x) as real && ay == (p.y - w.start.y) as real
    requires dx == (w.end.x - w.start.x) as real && dy == (w.end.y - w.start.y) as real
    ensures Dot(p, w) as real == ax * dx + ay * dy
  {
    CastProduct(p.x - w.start.x, w.end.x - w.start.x);
    CastProduct(p.y - w.start.y, w.end.y - w.start.y);
  }

  lemma WallLengthInReals(w: Wall, dx: real, dy: real)
    requires dx == (w.end.x - w.start.x) as real && dy == (w.end.y - w.start.y) as real
    ensures WallLengthSq(w) as real == dx * dx + dy * dy
  {
    var ex, ey := w.start.x - w.end.x, w.start.y - w.end.y;
    CastProduct(ex, ex);
    CastProduct(ey, ey);
    assert ex as real == -dx && ey as real == -dy;
    NegSquare(dx);
    NegSquare(dy);
  }

  lemma NegSquare(d: real)
    ensures (-d) * (-d) == d * d
  {
  }

  /** The squared distance from p to the point at parameter t along the wall, where
      l is the wall's squared length and b the dot product of p's offset with it. */
  lemma DistanceAt(p: Key, w: Wall, t: real, ax: real, ay: real, dx: real, dy: real, l: real, b: real)
    requires ax == (p.x - w.start.x) as real && ay == (p.y - w.start.y) as real
    requires dx == (w.end.x - w.start.x) as real && dy == (w.end.y - w.start.y) as real
    requires l == dx * dx + dy * dy && b == ax * dx + ay * dy
    ensures DistSq(p.x as real, p.y as real, w.start.x as real + t * dx, w.start.y as real + t * dy)
         == ax * ax + ay * ay + (t * t * l - 2.0 * t * b)
  {
    var u, v := p.x as real - (w.start.x as real + t * dx), p.y as real - (w.start.y as real + t * dy);
    assert u == ax - t * dx && v == ay - t * dy;
    ExpandedDistance(ax, ay, dx, dy, t);
  }

  lemma CastProduct(a: int, b: int)
    ensures (a * b) as real == a as real * b as real
  {
  }

  /** Along the line of a wall, the squared distance at the clamped parameter is no
      larger than at either end (parameter 0 or 1). */
  lemma ClampedQuadratic(b: real, l: real, t: real)
    requires l > 0.0 && t == Max(0.0, Min(1.0, b / l))
    ensures t * t * l - 2.0 * t * b <= 0.0
    ensures t * t * l - 2.0 * t * b <= l - 2.0 * b
  {
    var q := b / l;
    assert b == q * l;
    if q <= 0.0 {
      assert t == 0.0;
      assert b <= 0.0;
    } else if q >= 1.0 {
      assert t == 1.0;
      assert b >= l;
    } else {
      assert t == q;
      assert t * t * l == t * b;
      assert t * b >= 0.0;
      assert l - 2.0 * b + t * b == (l - b) * (1.0 - t);
      assert l - b >= 0.0;
    }
  }

  lemma ExpandedDistance(ax: real, ay: real, dx: real, dy: real, t: real)
    ensures (ax - t * dx) * (ax - t * dx) + (ay - t * dy) * (ay - t * dy)
         == ax * ax + ay * ay - 2.0 * t * (ax * dx + ay * dy) + t * t * (dx * dx + dy * dy)
  {
  }

  /** Hence a lattice point within the blocking radius of either end of a
      non-degenerate wall is never walkable. */
  lemma NearWallEndIsBlocked(mapData: MapData, walls: seq<Wall>, k: Key, i: int)
    requires mapData.gridResolution > 0
    requires 0 <= i < |walls| && WallLengthSq(walls[i]) != 0
    requires DistSq(k.x as real, k.y as real, walls[i].start.x as real, walls[i].start.y as real) < Threshold(mapData.gridResolution)
          || DistSq(k.x as real, k.y as real, walls[i].end.x as real, walls[i].end.y as real) < Threshold(mapData.gridResolution)
    ensures k !in WalkableCells(mapData, walls)
  {
    ProjectionNoFartherThanEnds(k, walls[i]);
    TooCloseIsBlocked(mapData, walls, k, i);
  }

  /** A wall from (50, 0) to (50, 100) on a 10-foot grid blocks (50, 50) and leaves
      (30, 50) and (70, 50) walkable. */
  lemma DividingWallExample()
    ensures var mapData := MapData(2400, 1600, [], 10);
            var walls := [Wall(Point(50, 0, None), Point(50, 100, None), "floor-1")];
            && Key(50, 50) !in WalkableCells(mapData, walls)
            && Key(30, 50) in WalkableCells(mapData, walls)
            && Key(70, 50) in WalkableCells(mapData, walls)
  {
    var mapData := MapData(2400, 1600, [], 10);
    var w := Wall(Point(50, 0, None), Point(50, 100, None), "floor-1");
    assert WallLengthSq(w) == 10000;
    assert ProjectionParam(Key(50, 50), w) == 0.5;
    assert ProjectionParam(Key(30, 50), w) == 0.5;
    assert ProjectionParam(Key(70, 50), w) == 0.5;
    assert ProjectionDistSq(Key(50, 50), w) == 0.0;
    assert ProjectionDistSq(Key(30, 50), w) == 400.0;
    assert ProjectionDistSq(Key(70, 50), w) == 400.0;
    assert Threshold(10) == 16.0;
    TooCloseIsBlocked(mapData, [w], Key(50, 50), 0);
    ClearIsWalkable(mapData, [w], Key(30, 50));
    ClearIsWalkable(mapData, [w], Key(70, 50));
  }
}
