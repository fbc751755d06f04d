/**
 * Path smoothing (PathSmoother.cs): a grid path becomes world points, is simplified,
 * bent into Bezier segments where the ground allows and rounded at sharp corners; the
 * class also turns points back into map cells, measures paths and checks them.
 *
 * The vector geometry the source takes from Unity (Vector3.Distance, Vector3.normalized,
 * the cubic Bezier and the point-to-line distance) is a parameter, a Geometry value.
 */
module PathSmoothing {
  import opened RVOMath
  import opened Cells
  import opened Maps
  import opened Options
  import opened Seqs
  import opened UnitTracking

  /** The geometry the smoother is given. */
  datatype Geometry = Geometry(
    distance: (Vec3, Vec3) -> real,                  // Vector3.Distance(a, b)
    distanceToLine: (Vec3, Vec3, Vec3) -> real,      // DistanceToLine(point, lineStart, lineEnd)
    bezier: (real, Vec3, Vec3, Vec3, Vec3) -> Vec3,  // CalculateBezierPoint(t, p0, p1, p2, p3)
    normalized: Vec3 -> Vec3)                        // v.normalized

  /** CalculatePathLength: the sum of the distances between consecutive points. */
  function PathLength(path: seq<Vec3>, distance: (Vec3, Vec3) -> real): real
  {
    if |path| <= 1 then 0.0
    else PathLength(path[..|path|-1], distance) + distance(path[|path|-2], path[|path|-1])
  }

  /** With a distance that is never negative, no path is shorter than zero. */
  lemma {:induction false} PathLengthNonNegative(path: seq<Vec3>, distance: (Vec3, Vec3) -> real)
    requires forall a, b :: distance(a, b) >= 0.0
    ensures PathLength(path, distance) >= 0.0
  {
    if |path| > 1 {
      PathLengthNonNegative(path[..|path|-1], distance);
    }
  }

  /** Joining two paths adds their lengths and the step across the joint. */
  lemma {:induction false} PathLengthAppend(a: seq<Vec3>, b: seq<Vec3>, distance: (Vec3, Vec3) -> real)
    requires |a| >= 1 && |b| >= 1
    ensures PathLength(a + b, distance) ==
      PathLength(a, distance) + distance(a[|a|-1], b[0]) + PathLength(b, distance)
  {
    var ab := a + b;
    if |b| == 1 {
      assert ab[..|ab|-1] == a;
    } else {
      var b' := b[..|b|-1];
      PathLengthAppend(a, b', distance);
      assert ab[..|ab|-1] == a + b';
      assert b'[0] == b[0];
    }
  }

  /** The interior point path[i] lies farther than the tolerance from the line through its neighbours. */
  ghost predicate StandsOut(path: seq<Vec3>, i: int, tolerance: real, geo: Geometry)
    requires 0 < i < |path| - 1
  {
    geo.distanceToLine(path[i], path[i-1], path[i+1]) > tolerance
  }

  /** The interior points SimplifyPath keeps: those farther than the tolerance from the line through their neighbours. */
  ghost function InteriorFlags(path: seq<Vec3>, tolerance: real, geo: Geometry): (keep: seq<bool>)
    requires |path| >= 3
    ensures |keep| == |path| - 2
  {
    seq(|path| - 2, k requires 0 <= k < |path| - 2 => StandsOut(path, k + 1, tolerance, geo))
  }

  /**
   * SimplifyPath's result: a path of fewer than three points unchanged, otherwise the first
   * point, the interior points InteriorFlags keeps in their order, and the last point.
   */
  ghost function Simplified(path: seq<Vec3>, tolerance: real, geo: Geometry): (r: seq<Vec3>)
    ensures |path| < 3 ==> r == path
    ensures |path| >= 2 ==> 2 <= |r| <= |path| && r[0] == path[0] && r[|r|-1] == path[|path|-1]
  {
    if |path| < 3 then path
    else [path[0]] + Kept(path[1..|path|-1], InteriorFlags(path, tolerance, geo)) + [path[|path|-1]]
  }

  /** Every point strictly inside a simplified path is an interior point of the input that stands out. */
  lemma SimplifiedKeepsOnlyStandouts(path: seq<Vec3>, tolerance: real, geo: Geometry)
    requires |path| >= 3
    ensures var r := Simplified(path, tolerance, geo);
      forall j :: 1 <= j < |r| - 1 ==>
        exists i :: 1 <= i < |path| - 1 && path[i] == r[j] && StandsOut(path, i, tolerance, geo)
  {
    var inner := path[1..|path|-1];
    var keep := InteriorFlags(path, tolerance, geo);
    var r := Simplified(path, tolerance, geo);
    var kept := Kept(inner, keep);
    KeptMembers(inner, keep);
    assert r == [path[0]] + kept + [path[|path|-1]];
    forall j | 1 <= j < |r| - 1
      ensures exists i :: 1 <= i < |path| - 1 && path[i] == r[j] && StandsOut(path, i, tolerance, geo)
    {
      assert r[j] == kept[j-1];
      assert r[j] in kept;
      var k :| 0 <= k < |inner| && keep[k] && inner[k] == r[j];
      assert path[k+1] == r[j];
    }
  }

  /** Every interior point of the input that stands out is kept strictly inside the simplified path. */
  lemma SimplifiedKeepsStandouts(path: seq<Vec3>, tolerance: real, geo: Geometry)
    requires |path| >= 3
    ensures var r := Simplified(path, tolerance, geo);
      forall i :: 1 <= i < |path| - 1 && StandsOut(path, i, tolerance, geo) ==>
        exists j :: 1 <= j < |r| - 1 && r[j] == path[i]
  {
    var inner := path[1..|path|-1];
    var keep := InteriorFlags(path, tolerance, geo);
    var r := Simplified(path, tolerance, geo);
    var kept := Kept(inner, keep);
    KeptMembers(inner, keep);
    assert r == [path[0]] + kept + [path[|path|-1]];
    forall i | 1 <= i < |path| - 1 && StandsOut(path, i, tolerance, geo)
      ensures exists j :: 1 <= j < |r| - 1 && r[j] == path[i]
    {
      assert keep[i-1] && inner[i-1] == path[i];
      assert path[i] in kept;
      var m :| 0 <= m < |kept| && kept[m] == path[i];
      assert r[m+1] == kept[m];
    }
  }

  /** The number of pieces SmoothPath cuts the step from start to end into: at least two. */
  function Segments(start: Vec3, end: Vec3, cellSize: real, geo: Geometry): (n: int)
    requires cellSize > 0.0
    ensures n >= 2
    ensures n > 2 ==> n as real * cellSize <= geo.distance(start, end)
  {
    var pieces := (geo.distance(start, end) / cellSize).Floor;
    if pieces > 2 then
      FloorBrackets(geo.distance(start, end), cellSize);
      pieces
    else 2
  }

  /**
   * What the smoother sees of the map: the cell size and the cells that can be walked on.
   * A point is walkable when its cell is one of them.
   */
  datatype Terrain = Terrain(cellSize: real, walkable: set<Vector2Int>)
  {
    predicate Walks(p: Vec3)
      requires cellSize > 0.0
    {
      FloorCell(p, cellSize) in walkable
    }
  }

  /** The control points of the Bezier curve SmoothPath draws from s[i] to s[i+1]. */
  function Control1(s: seq<Vec3>, i: int, smoothness: real): Vec3
    requires 0 <= i < |s|
  {
    if i > 0 then Add(s[i], Scale(Sub(s[i], s[i-1]), smoothness)) else s[i]
  }

  function Control2(s: seq<Vec3>, i: int, smoothness: real): Vec3
    requires 0 <= i && i + 1 < |s|
  {
    if i < |s| - 2 then Sub(s[i+1], Scale(Sub(s[i+2], s[i+1]), smoothness)) else s[i+1]
  }

  /**
   * The j-th of the points SmoothPath places between s[i] and s[i+1]: the Bezier point at
   * t = j / segments when it is walkable, the point at t on the straight line otherwise.
   */
  function SegmentPoint(s: seq<Vec3>, i: int, smoothness: real, geo: Geometry, ground: Terrain, j: int): Vec3
    requires ground.cellSize > 0.0 && 0 <= i && i + 1 < |s|
  {
    var start, end := s[i], s[i+1];
    var t := j as real / Segments(start, end, ground.cellSize, geo) as real;
    var point := geo.bezier(t, start, Control1(s, i, smoothness), Control2(s, i, smoothness), end);
    if ground.Walks(point) then point else Add(start, Scale(Sub(end, start), t))
  }

  /** The first j of the points SmoothPath places between s[i] and s[i+1]. */
  function SegmentPrefix(s: seq<Vec3>, i: int, smoothness: real, geo: Geometry, ground: Terrain, j: nat): (r: seq<Vec3>)
    requires ground.cellSize > 0.0 && 0 <= i && i + 1 < |s|
    ensures |r| == j
    ensures forall k :: 0 <= k < j ==> r[k] == SegmentPoint(s, i, smoothness, geo, ground, k + 1)
  {
    if j == 0 then []
    else SegmentPrefix(s, i, smoothness, geo, ground, j - 1) + [SegmentPoint(s, i, smoothness, geo, ground, j)]
  }

  /** The points strictly between s[i] and s[i+1]: one fewer than the segments, so at least one. */
  function SegmentPoints(s: seq<Vec3>, i: int, smoothness: real, geo: Geometry, ground: Terrain): (r: seq<Vec3>)
    requires ground.cellSize > 0.0 && 0 <= i && i + 1 < |s|
    ensures |r| == Segments(s[i], s[i+1], ground.cellSize, geo) - 1 >= 1
  {
    SegmentPrefix(s, i, smoothness, geo, ground, Segments(s[i], s[i+1], ground.cellSize, geo) - 1)
  }

  /** The points between s[0] and s[i], in order; each of the i steps contributes at least one. */
  function SegmentsUpTo(s: seq<Vec3>, i: int, smoothness: real, geo: Geometry, ground: Terrain): (r: seq<Vec3>)
    requires ground.cellSize > 0.0 && 0 <= i < |s|
    ensures |r| >= i
  {
    if i == 0 then []
    else SegmentsUpTo(s, i - 1, smoothness, geo, ground) + SegmentPoints(s, i - 1, smoothness, geo, ground)
  }

  /**
   * The curve SmoothPath draws through a simplified path: its first point, the points of
   * every step, and its last point.
   */
  function Smoothed(s: seq<Vec3>, smoothness: real, geo: Geometry, ground: Terrain): (r: seq<Vec3>)
    requires ground.cellSize > 0.0 && |s| >= 2
    ensures |r| >= |s| + 1
    ensures r[0] == s[0] && r[|r|-1] == s[|s|-1]
  {
    [s[0]] + SegmentsUpTo(s, |s| - 1, smoothness, geo, ground) + [s[|s|-1]]
  }

  /** The directions into and out of path[i] meet at an angle sharper than 120 degrees. */
  predicate IsSharpCorner(path: seq<Vec3>, i: int, geo: Geometry)
    requires 0 < i < |path| - 1
  {
    Dot(geo.normalized(Sub(path[i], path[i-1])), geo.normalized(Sub(path[i+1], path[i]))) < -0.5
  }

  /** The point HandleCorners moves a sharp corner to: along the sum of the two directions, 0.3 cells out. */
  function RoundedPoint(path: seq<Vec3>, i: int, geo: Geometry, cellSize: real): Vec3
    requires 0 < i < |path| - 1
  {
    var direction1 := geo.normalized(Sub(path[i], path[i-1]));
    var direction2 := geo.normalized(Sub(path[i+1], path[i]));
    Add(path[i], Scale(geo.normalized(Add(direction1, direction2)), cellSize * 0.3))
  }

  /** What HandleCorners puts in place of the interior point path[i]. */
  function CornerAt(path: seq<Vec3>, geo: Geometry, ground: Terrain, i: int): Vec3
    requires ground.cellSize > 0.0 && 0 < i < |path| - 1
  {
    var rounded := RoundedPoint(path, i, geo, ground.cellSize);
    if IsSharpCorner(path, i, geo) && ground.Walks(rounded) then rounded else path[i]
  }

  /** The first i points of HandleCorners' result. */
  function CornerPrefix(path: seq<Vec3>, geo: Geometry, ground: Terrain, i: int): (r: seq<Vec3>)
    requires ground.cellSize > 0.0 && 1 <= i < |path|
    ensures |r| == i && r[0] == path[0]
    ensures forall k :: 0 < k < i ==> r[k] == CornerAt(path, geo, ground, k)
  {
    if i == 1 then [path[0]]
    else CornerPrefix(path, geo, ground, i - 1) + [CornerAt(path, geo, ground, i - 1)]
  }

  /**
   * HandleCorners' result: the endpoints and every interior point kept, except that a sharp
   * corner whose rounded point is walkable is replaced by that point.
   */
  function Cornered(path: seq<Vec3>, geo: Geometry, ground: Terrain): (r: seq<Vec3>)
    requires ground.cellSize > 0.0
    ensures |r| == |path|
    ensures |path| > 0 ==> r[0] == path[0] && r[|r|-1] == path[|path|-1]
    ensures forall i :: 0 < i < |path| - 1 && r[i] != path[i] ==>
      IsSharpCorner(path, i, geo) && r[i] == RoundedPoint(path, i, geo, ground.cellSize) && ground.Walks(r[i])
  {
    if |path| < 3 then path
    else CornerPrefix(path, geo, ground, |path| - 1) + [path[|path|-1]]
  }

  /** One round of GetGridPath's loop: an on-map cell not seen before is added, anything else skipped. */
  lemma VisitStep(cells: seq<Vector2Int>, onMap: seq<bool>, k: nat, d: seq<Vector2Int>)
    requires |onMap| == |cells| && k < |cells| && d == FirstSeen(Kept(cells[..k], onMap[..k]))
    ensures FirstSeen(Kept(cells[..k+1], onMap[..k+1])) == if onMap[k] && cells[k] !in d then d + [cells[k]] else d
  {
    var seen := Kept(cells[..k], onMap[..k]);
    KeptStep(cells, onMap, k);
    if onMap[k] {
      FirstSeenStep(seen, cells[k]);
    } else {
      assert seen + [] == seen;
    }
  }

  /**
   * SmoothPath's curve starts at the first point it was given and ends at the last, and has
   * at least one point in between.
   */
  lemma SmoothedEnds(points: seq<Vec3>, smoothness: real, geo: Geometry, ground: Terrain)
    requires ground.cellSize > 0.0 && |points| >= 2
    ensures var r := Cornered(Smoothed(Simplified(points, 0.1, geo), smoothness, geo, ground), geo, ground);
      |r| >= 3 && r[0] == points[0] && r[|r|-1] == points[|points|-1]
  {
  }

  class PathSmoother {
    const world: Map
    const cellSize: real

    /** new PathSmoother(map): the cell size is the map's. */
    constructor (m: Map)
      requires m.CellSize > 0.0
      ensures world == m && cellSize == m.CellSize
    {
      world := m;
      cellSize := m.CellSize;
    }

    /** The map is well formed and cells have a positive size. */
    ghost predicate Valid()
      reads world, world.grids
    {
      cellSize > 0.0 && world.Valid()
    }

    /** The cells of the map that can be walked on. */
    ghost function WalkableCells(): (w: set<Vector2Int>)
      requires Valid()
      reads world, world.grids, world.CellSet
      ensures forall c :: c in w <==> world.InRange(c.x, c.y) && world.grids[c.x, c.y].IsWalkable()
    {
      set x, z | 0 <= x < world.Width && 0 <= z < world.Height && world.grids[x, z].IsWalkable() :: Vector2Int(x, z)
    }

    /** The map as the smoothing functions see it. */
    ghost function Ground(): (t: Terrain)
      requires Valid()
      reads world, world.grids, world.CellSet
      ensures t.cellSize > 0.0
    {
      Terrain(cellSize, WalkableCells())
    }

    /**
     * IsWalkable: the point's cell is on the map and walkable; every point off the map is
     * unwalkable.
     */
    function IsWalkable(position: Vec3): (r: bool)
      requires Valid()
      reads world, world.grids, world.CellSet
      ensures var c := FloorCell(position, cellSize);
        r <==> world.InRange(c.x, c.y) && world.grids[c.x, c.y].IsWalkable()
      ensures r <==> Ground().Walks(position)
    {
      var c := FloorCell(position, cellSize);
      if c.x < 0 || c.x >= world.Width || c.y < 0 || c.y >= world.Height then false
      else
        var grid := world.GetGrid(c.x, c.y);
        grid != null && grid.IsWalkable()
    }

    /** The world point SmoothPath starts from for a cell: the centre of its square, at the cell's height. */
    function Centre(grid: Grid): (p: Vec3)
      requires cellSize > 0.0
      reads grid
      ensures p.y == grid.Y
      ensures FloorCell(p, cellSize) == Vector2Int(grid.X, grid.Z)
    {
      var px := grid.X as real * cellSize + cellSize * 0.5;
      var pz := grid.Z as real * cellSize + cellSize * 0.5;
      CentreInCell(grid.X, cellSize, px);
      CentreInCell(grid.Z, cellSize, pz);
      var p := Vec3(px, grid.Y, pz);
      assert FloorCell(p, cellSize) == Vector2Int((px / cellSize).Floor, (pz / cellSize).Floor);
      p
    }

    /** The centres of a path of cells. */
    ghost function Centres(path: seq<Grid>): (r: seq<Vec3>)
      requires cellSize > 0.0
      reads path
      ensures |r| == |path|
    {
      seq(|path|, k requires 0 <= k < |path| reads path => Centre(path[k]))
    }

    /**
     * SmoothPath: nothing for a missing path or one of fewer than two cells; otherwise the
     * cell centres, simplified with tolerance 0.1, smoothed and rounded at the corners
     * (SmoothedEnds: from the first cell's centre to the last cell's centre).
     */
    method SmoothPath(originalPath: Option<seq<Grid>>, geo: Geometry, smoothness: real := 0.5) returns (r: seq<Vec3>)
      requires Valid()
      ensures originalPath.None? || |originalPath.value| < 2 ==> r == []
      ensures originalPath.Some? && |originalPath.value| >= 2 ==>
        r == Cornered(Smoothed(Simplified(Centres(originalPath.value), 0.1, geo), smoothness, geo, Ground()), geo, Ground())
    {
      if originalPath.None? || |originalPath.value| < 2 {
        return [];
      }
      ghost var ground := Ground();
      var path := originalPath.value;
      var pathPoints := WorldPoints(path);
      var simplifiedPath := SimplifyPath(pathPoints, 0.1, geo);
      // Simplification keeps both endpoints, so the source's early return for fewer than two points never fires.
      assert |simplifiedPath| >= 2;
      var smoothedPath := BezierCurve(simplifiedPath, smoothness, geo, ground);
      r := HandleCorners(smoothedPath, geo, ground);
      assert ground == Ground() && pathPoints == Centres(originalPath.value);
    }

    /** The first loop of SmoothPath: the centre of every cell of the path. */
    method WorldPoints(path: seq<Grid>) returns (points: seq<Vec3>)
      requires cellSize > 0.0
      ensures points == Centres(path)
    {
      points := [];
      var k := 0;
      while k < |path|
        invariant 0 <= k <= |path|
        invariant points == Centres(path)[..k]
      {
        assert Centres(path)[k] == Centre(path[k]);
        points := points + [Centre(path[k])];
        k := k + 1;
      }
      assert points == Centres(path);
    }

    /** The second loop of SmoothPath: a Bezier curve through the simplified path. */
    method BezierCurve(s: seq<Vec3>, smoothness: real, geo: Geometry, ghost ground: Terrain) returns (curve: seq<Vec3>)
      requires Valid() && ground == Ground() && |s| >= 2
      ensures curve == Smoothed(s, smoothness, geo, ground)
    {
      curve := [s[0]];
      var i := 0;
      while i < |s| - 1
        invariant 0 <= i <= |s| - 1
        invariant curve == [s[0]] + SegmentsUpTo(s, i, smoothness, geo, ground)
      {
        var points := BezierSegment(s, i, smoothness, geo, ground);
        ghost var before := SegmentsUpTo(s, i, smoothness, geo, ground);
        assert SegmentsUpTo(s, i + 1, smoothness, geo, ground) == before + points;
        assert curve + points == [s[0]] + (before + points);
        curve := curve + points;
        i := i + 1;
      }
      curve := curve + [s[|s|-1]];
    }

    /** The inner loop of SmoothPath: the points it adds between s[i] and s[i+1]. */
    method BezierSegment(s: seq<Vec3>, i: int, smoothness: real, geo: Geometry, ghost ground: Terrain)
      returns (points: seq<Vec3>)
      requires Valid() && ground == Ground() && 0 <= i && i + 1 < |s|
      ensures points == SegmentPoints(s, i, smoothness, geo, ground)
    {
      var start := s[i];
      var end := s[i+1];
      var control1 := start;
      if i > 0 {
        control1 := Add(start, Scale(Sub(start, s[i-1]), smoothness));
      }
      var control2 := end;
      if i < |s| - 2 {
        control2 := Sub(end, Scale(Sub(s[i+2], end), smoothness));
      }
      var segments := (geo.distance(start, end) / cellSize).Floor;
      if segments < 2 {
        segments := 2;
      }
      assert segments == Segments(start, end, cellSize, geo);
      assert control1 == Control1(s, i, smoothness) && control2 == Control2(s, i, smoothness);
      points := [];
      var j := 1;
      while j < segments
        invariant 1 <= j <= segments
        invariant points == SegmentPrefix(s, i, smoothness, geo, ground, j - 1)
      {
        var t := j as real / segments as real;
        var point := geo.bezier(t, start, control1, control2, end);
        if IsWalkable(point) {
          points := points + [point];
        } else {
          points := points + [Add(start, Scale(Sub(end, start), t))];
        }
        j := j + 1;
      }
    }

    /** SimplifyPath: drops the interior points that lie within the tolerance of the line through their neighbours. */
    method SimplifyPath(path: seq<Vec3>, tolerance: real, geo: Geometry) returns (simplified: seq<Vec3>)
      ensures simplified == Simplified(path, tolerance, geo)
    {
      if |path| < 3 {
        return path;
      }
      ghost var inner := path[1..|path|-1];
      ghost var keep := InteriorFlags(path, tolerance, geo);
      simplified := [path[0]];
      var i := 1;
      while i < |path| - 1
        invariant 1 <= i <= |path| - 1
        invariant simplified == [path[0]] + Kept(inner[..i-1], keep[..i-1])
      {
        KeptStep(inner, keep, i - 1);
        var current := path[i];
        var distance := geo.distanceToLine(current, path[i-1], path[i+1]);
        if distance > tolerance {
          simplified := simplified + [current];
        }
        i := i + 1;
      }
      assert inner[..i-1] == inner && keep[..i-1] == keep;
      simplified := simplified + [path[|path|-1]];
    }

    /** HandleCorners: rounds every sharp corner whose rounded point is walkable. */
    method HandleCorners(path: seq<Vec3>, geo: Geometry, ghost ground: Terrain) returns (result: seq<Vec3>)
      requires Valid() && ground == Ground()
      ensures result == Cornered(path, geo, ground)
    {
      if |path| < 3 {
        return path;
      }
      result := [path[0]];
      var i := 1;
      while i < |path| - 1
        invariant 1 <= i <= |path| - 1
        invariant result == CornerPrefix(path, geo, ground, i)
      {
        var prev := path[i-1];
        var current := path[i];
        var next := path[i+1];
        var direction1 := geo.normalized(Sub(current, prev));
        var direction2 := geo.normalized(Sub(next, current));
        var dot := Dot(direction1, direction2);
        if dot < -0.5 {
          var cornerRadius := cellSize * 0.3;
          var roundedPoint := Add(current, Scale(geo.normalized(Add(direction1, direction2)), cornerRadius));
          if IsWalkable(roundedPoint) {
            result := result + [roundedPoint];
          } else {
            result := result + [current];
          }
        } else {
          result := result + [current];
        }
        i := i + 1;
      }
      result := result + [path[|path|-1]];
    }

    /** The cell of every point. */
    ghost function PathCells(points: seq<Vec3>): (cells: seq<Vector2Int>)
      requires cellSize > 0.0
      ensures |cells| == |points|
    {
      seq(|points|, k requires 0 <= k < |points| => FloorCell(points[k], cellSize))
    }

    /** Which cells lie on the map. */
    ghost function OnMap(cells: seq<Vector2Int>): (keep: seq<bool>)
      ensures |keep| == |cells|
    {
      seq(|cells|, k requires 0 <= k < |cells| => world.InRange(cells[k].x, cells[k].y))
    }

    /** The cells GetGridPath visits: the on-map cells of the points, each once, in order of first appearance. */
    ghost function VisitedCells(points: seq<Vec3>): seq<Vector2Int>
      requires cellSize > 0.0
    {
      var cells := PathCells(points);
      FirstSeen(Kept(cells, OnMap(cells)))
    }

    /**
     * GetGridPath: the map cells the points fall in, each once, in the order the points first
     * reach them; points off the map are skipped.
     */
    method GetGridPath(smoothPath: seq<Vec3>) returns (gridPath: seq<Grid>)
      requires Valid()
      ensures var d := VisitedCells(smoothPath);
        |gridPath| == |d| &&
        forall m :: 0 <= m < |d| ==> world.InRange(d[m].x, d[m].y) && gridPath[m] == world.grids[d[m].x, d[m].y]
      ensures Distinct(gridPath)
    {
      ghost var cells := PathCells(smoothPath);
      ghost var onMap := OnMap(cells);
      gridPath := [];
      var visited: set<Vector2Int> := {};
      ghost var d: seq<Vector2Int> := [];
      var k := 0;
      while k < |smoothPath|
        invariant 0 <= k <= |smoothPath|
        invariant d == FirstSeen(Kept(cells[..k], onMap[..k]))
        invariant |gridPath| == |d|
        invariant forall c :: c in visited <==> c in d
        invariant forall m :: 0 <= m < |d| ==> world.InRange(d[m].x, d[m].y) && gridPath[m] == world.grids[d[m].x, d[m].y]
      {
        gridPath, visited, d := VisitPoint(smoothPath, cells, onMap, k, gridPath, visited, d);
        k := k + 1;
      }
      assert cells[..k] == cells && onMap[..k] == onMap;
      FirstSeenDistinct(Kept(cells, onMap));
      CellsOfDistinct(d, gridPath);
    }

    /** One round of GetGridPath's loop: the point's cell is added when it is on the map and not yet visited. */
    method VisitPoint(smoothPath: seq<Vec3>, ghost cells: seq<Vector2Int>, ghost onMap: seq<bool>, k: nat,
                      gridPath: seq<Grid>, visited: set<Vector2Int>, ghost d: seq<Vector2Int>)
      returns (newPath: seq<Grid>, newVisited: set<Vector2Int>, ghost newD: seq<Vector2Int>)
      requires Valid() && k < |smoothPath| && cells == PathCells(smoothPath) && onMap == OnMap(cells)
      requires d == FirstSeen(Kept(cells[..k], onMap[..k])) && |gridPath| == |d|
      requires forall c :: c in visited <==> c in d
      requires forall m :: 0 <= m < |d| ==> world.InRange(d[m].x, d[m].y) && gridPath[m] == world.grids[d[m].x, d[m].y]
      ensures newD == FirstSeen(Kept(cells[..k+1], onMap[..k+1])) && |newPath| == |newD|
      ensures forall c :: c in newVisited <==> c in newD
      ensures forall m :: 0 <= m < |newD| ==>
        world.InRange(newD[m].x, newD[m].y) && newPath[m] == world.grids[newD[m].x, newD[m].y]
    {
      VisitStep(cells, onMap, k, d);
      newPath, newVisited, newD := gridPath, visited, d;
      var point := smoothPath[k];
      var x := (point.x / cellSize).Floor;
      var z := (point.z / cellSize).Floor;
      var gridPos := Vector2Int(x, z);
      assert gridPos == cells[k] && onMap[k] == world.InRange(x, z);
      if gridPos !in visited && x >= 0 && x < world.Width && z >= 0 && z < world.Height {
        var grid := world.GetGrid(x, z);
        if grid != null {
          newPath := gridPath + [grid];
          newVisited := visited + {gridPos};
          newD := d + [gridPos];
        }
      }
    }

    /** Distinct coordinates address distinct cells of the map. */
    lemma CellsOfDistinct(d: seq<Vector2Int>, cells: seq<Grid>)
      requires world.Valid() && Distinct(d) && |cells| == |d|
      requires forall m :: 0 <= m < |d| ==> world.InRange(d[m].x, d[m].y) && cells[m] == world.grids[d[m].x, d[m].y]
      ensures Distinct(cells)
    {
      forall a, b | 0 <= a < b < |cells| ensures cells[a] != cells[b] {
        assert d[a] != d[b];
        assert cells[a].X == d[a].x && cells[a].Z == d[a].y;
        assert cells[b].X == d[b].x && cells[b].Z == d[b].y;
      }
    }

    /** CalculatePathLength: the sum of the distances between consecutive points. */
    method CalculatePathLength(path: seq<Vec3>, geo: Geometry) returns (length: real)
      ensures length == PathLength(path, geo.distance)
    {
      length := 0.0;
      if |path| == 0 {
        return;
      }
      var i := 1;
      while i < |path|
        invariant 1 <= i <= |path|
        invariant length == PathLength(path[..i], geo.distance)
      {
        assert path[..i+1][..i] == path[..i];
        length := length + geo.distance(path[i-1], path[i]);
        i := i + 1;
      }
      assert path[..i] == path;
    }

    /** IsPathValid: a path of at least two points, every one of them walkable. */
    method IsPathValid(path: Option<seq<Vec3>>) returns (r: bool)
      requires Valid()
      ensures r <==> (path.Some? && |path.value| >= 2 &&
        forall i :: 0 <= i < |path.value| ==> IsWalkable(path.value[i]))
    {
      if path.None? || |path.value| < 2 {
        return false;
      }
      var points := path.value;
      var k := 0;
      while k < |points|
        invariant 0 <= k <= |points|
        invariant forall i :: 0 <= i < k ==> IsWalkable(points[i])
      {
        if !IsWalkable(points[k]) {
          return false;
        }
        k := k + 1;
      }
      return true;
    }
  }
}
