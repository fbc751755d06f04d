/**
 * The unit occupancy tracker (UnitManager.cs): the registered units by id and the set of
 * map cells their footprints cover, kept equal to the union of those footprints.
 */
module UnitTracking {
  import opened RVOMath
  import opened Cells
  import opened Maps

  /** A unit: a world position and a footprint of Width × Height cells. */
  datatype Unit = Unit(Position: Vec3, TargetPosition: Vec3, Width: int, Height: int,
                       UnitId: int, Radius: real, IsMoving: bool)

  /**
   * new Unit(unitId, position, width = 1, height = 1): the radius is half the larger side,
   * and a new unit is not moving.
   */
  function NewUnit(unitId: int, position: Vec3, width: int := 1, height: int := 1): (u: Unit)
    ensures u.UnitId == unitId && u.Position == position && u.Width == width && u.Height == height
    ensures u.Radius * 2.0 >= width as real && u.Radius * 2.0 >= height as real
    ensures u.Radius * 2.0 == width as real || u.Radius * 2.0 == height as real
    ensures !u.IsMoving
  {
    Unit(position, Zero, width, height, unitId, (if width >= height then width else height) as real * 0.5, false)
  }

  /** c lies in the w × h block of cells whose lowest corner is g. */
  predicate InBox(g: Vector2Int, w: int, h: int, c: Vector2Int) {
    g.x <= c.x < g.x + w && g.y <= c.y < g.y + h
  }

  /**
   * The nested footprint scan: cell by cell through the w × h block at g, stopping at
   * the first cell equal to c.
   */
  method FootprintContains(g: Vector2Int, w: int, h: int, c: Vector2Int) returns (found: bool)
    ensures found <==> InBox(g, w, h, c)
  {
    found := false;
    var x := 0;
    while x < w && !found
      invariant 0 <= x && (x <= w || x == 0)
      invariant found ==> InBox(g, w, h, c)
      invariant !found ==> !InBox(g, x, h, c)
    {
      var z := 0;
      while z < h && !found
        invariant 0 <= z && (z <= h || z == 0)
        invariant found ==> InBox(g, w, h, c)
        invariant !found ==> !InBox(g, x, h, c) && !InBox(Vector2Int(g.x + x, g.y), 1, z, c)
      {
        if Vector2Int(g.x + x, g.y + z) == c {
          found := true;
        }
        z := z + 1;
      }
      x := x + 1;
    }
  }

  /** The centre of cell n, at n + 1/2 cell sizes, lies inside cell n. */
  lemma CentreInCell(n: int, cellSize: real, v: real)
    requires cellSize > 0.0 && v == n as real * cellSize + cellSize * 0.5
    ensures (v / cellSize).Floor == n
  {
    var q := n as real + 0.5;
    assert v == q * cellSize;
    assert v / cellSize == q;
    assert q.Floor == n;
  }

  /** Multiplying by a positive scale keeps a strict order. */
  lemma ScaleStrict(a: real, b: real, s: real)
    requires a < b && s > 0.0
    ensures a * s < b * s
  {
    assert (b - a) * s > 0.0;
  }

  /** Multiplying by a positive scale keeps a weak order. */
  lemma ScaleLess(a: real, b: real, s: real)
    requires a <= b && s > 0.0
    ensures a * s <= b * s
  {
    assert (b - a) * s >= 0.0;
  }

  /** The floor of v / s brackets v between two consecutive multiples of s. */
  lemma FloorBrackets(v: real, s: real)
    requires s > 0.0
    ensures (v / s).Floor as real * s <= v
    ensures v < ((v / s).Floor + 1) as real * s
  {
    var q := v / s;
    var n := q.Floor;
    assert q * s == v;
    var m := (n + 1) as real;
    assert n as real <= q < m;
    ScaleLess(n as real, q, s);
    ScaleStrict(q, m, s);
    assert v < m * s;
  }

  /**
   * Mathf.FloorToInt(x / cellSize), Mathf.FloorToInt(z / cellSize): the cell whose square
   * contains the point.
   */
  function FloorCell(worldPos: Vec3, cellSize: real): (g: Vector2Int)
    requires cellSize > 0.0
    ensures g.x as real * cellSize <= worldPos.x < (g.x + 1) as real * cellSize
    ensures g.y as real * cellSize <= worldPos.z < (g.y + 1) as real * cellSize
  {
    FloorBrackets(worldPos.x, cellSize);
    FloorBrackets(worldPos.z, cellSize);
    Vector2Int((worldPos.x / cellSize).Floor, (worldPos.z / cellSize).Floor)
  }

  class UnitManager {
    /** m_units: the registered units by id. */
    var units: map<int, Unit>
    /** m_occupiedGrids */
    var occupied: set<Vector2Int>
    /** m_map: only its dimensions are read. */
    const world: Map
    /** m_cellSize, taken from the map. */
    const cellSize: real

    /**
     * Every unit is filed under its own id, and the occupied set is exactly the set of
     * in-bounds cells some registered unit's footprint covers.
     */
    ghost predicate Valid()
      reads this
    {
      cellSize > 0.0 &&
      (forall id :: id in units ==> units[id].UnitId == id) &&
      occupied == Covered(units)
    }

    /** new UnitManager(map): no units, no occupied cells. */
    constructor (m: Map)
      requires m.CellSize > 0.0
      ensures world == m && cellSize == m.CellSize
      ensures units == map[] && occupied == {}
      ensures Valid()
    {
      units := map[];
      occupied := {};
      world := m;
      cellSize := m.CellSize;
    }

    /** WorldToGrid: the cell of a world position, as FloorCell computes it. */
    function WorldToGrid(worldPos: Vec3): Vector2Int
      requires cellSize > 0.0
    {
      FloorCell(worldPos, cellSize)
    }

    /** GridToWorld: a point strictly inside the cell's square (its centre), at height 0. */
    function GridToWorld(gridPos: Vector2Int): (p: Vec3)
      requires cellSize > 0.0
      ensures gridPos.x as real * cellSize < p.x < (gridPos.x + 1) as real * cellSize
      ensures gridPos.y as real * cellSize < p.z < (gridPos.y + 1) as real * cellSize
      ensures p.y == 0.0
    {
      Vec3(gridPos.x as real * cellSize + cellSize * 0.5, 0.0, gridPos.y as real * cellSize + cellSize * 0.5)
    }

    /** Mapping a cell to its centre and back gives the same cell. */
    lemma GridRoundTrip(c: Vector2Int)
      requires cellSize > 0.0
      ensures WorldToGrid(GridToWorld(c)) == c
    {
      var p := GridToWorld(c);
      CentreInCell(c.x, cellSize, p.x);
      CentreInCell(c.y, cellSize, p.z);
    }

    /** IsValidGrid: the cell lies on the map. */
    predicate IsValidGrid(gridPos: Vector2Int) {
      0 <= gridPos.x < world.Width && 0 <= gridPos.y < world.Height
    }

    /** The valid cells are exactly the cells the map can return. */
    lemma ValidGridOnMap(c: Vector2Int)
      requires world.Valid()
      ensures IsValidGrid(c) <==> world.GetGrid(c.x, c.y) != null
    {
    }

    /** The unit's footprint covers c: c is in the Width × Height block at the unit's cell. */
    predicate Covers(u: Unit, c: Vector2Int)
      requires cellSize > 0.0
    {
      InBox(WorldToGrid(u.Position), u.Width, u.Height, c)
    }

    /** The in-bounds cells of a unit's footprint. */
    ghost function Footprint(u: Unit): (r: set<Vector2Int>)
      requires cellSize > 0.0
      ensures forall c :: c in r <==> Covers(u, c) && IsValidGrid(c)
    {
      var r := set x, z | 0 <= x < world.Width && 0 <= z < world.Height && Covers(u, Vector2Int(x, z)) :: Vector2Int(x, z);
      assert forall c :: Covers(u, c) && IsValidGrid(c) ==> c in r by {
        forall c | Covers(u, c) && IsValidGrid(c)
          ensures c in r
        {
          assert c == Vector2Int(c.x, c.y);
        }
      }
      r
    }

    /** The in-bounds cells covered by some unit of us. */
    ghost function Covered(us: map<int, Unit>): (r: set<Vector2Int>)
      requires cellSize > 0.0
      ensures forall c :: c in r <==> IsValidGrid(c) && exists id :: id in us && Covers(us[id], c)
    {
      var r := set id, c | id in us && c in Footprint(us[id]) :: c;
      forall c | IsValidGrid(c) && exists id :: id in us && Covers(us[id], c)
        ensures c in r
      {
        var id :| id in us && Covers(us[id], c);
        assert c in Footprint(us[id]);
      }
      r
    }

    /** Some unit of us whose UnitId is not exclude covers c. */
    ghost predicate CoveredByOther(us: map<int, Unit>, exclude: int, c: Vector2Int)
      requires cellSize > 0.0
    {
      exists id :: id in us && us[id].UnitId != exclude && Covers(us[id], c)
    }

    /**
     * IsPositionOccupiedByUnit: scans the units, skipping those whose id is
     * excludeUnitId, for one whose footprint contains gridPos. Map bounds play no part.
     */
    method IsPositionOccupiedByUnit(gridPos: Vector2Int, excludeUnitId: int) returns (r: bool)
      requires cellSize > 0.0
      ensures r <==> CoveredByOther(units, excludeUnitId, gridPos)
    {
      var rest := units.Keys;
      r := false;
      while !r && exists id :: id in rest
        invariant rest <= units.Keys
        invariant r ==> CoveredByOther(units, excludeUnitId, gridPos)
        invariant !r ==> forall id :: id in units && id !in rest ==>
          units[id].UnitId == excludeUnitId || !Covers(units[id], gridPos)
        decreases rest
      {
        var id :| id in rest;
        rest := rest - {id};
        var unit := units[id];
        if unit.UnitId != excludeUnitId {
          r := FootprintContains(WorldToGrid(unit.Position), unit.Width, unit.Height, gridPos);
        }
      }
    }

    /** UpdateOccupiedGrids: marks every in-bounds cell of the unit's footprint. */
    method UpdateOccupiedGrids(unit: Unit)
      requires cellSize > 0.0
      modifies this`occupied
      ensures occupied == old(occupied) + Footprint(unit)
    {
      var gridPos := WorldToGrid(unit.Position);
      var x := 0;
      while x < unit.Width
        invariant 0 <= x && (x <= unit.Width || x == 0)
        invariant forall c :: c in occupied <==>
          c in old(occupied) || (InBox(gridPos, x, unit.Height, c) && IsValidGrid(c))
      {
        var z := 0;
        while z < unit.Height
          invariant 0 <= z && (z <= unit.Height || z == 0)
          invariant forall c :: c in occupied <==>
            c in old(occupied) || ((InBox(gridPos, x, unit.Height, c) ||
              InBox(Vector2Int(gridPos.x + x, gridPos.y), 1, z, c)) && IsValidGrid(c))
        {
          var checkPos := Vector2Int(gridPos.x + x, gridPos.y + z);
          if IsValidGrid(checkPos) {
            occupied := occupied + {checkPos};
          }
          z := z + 1;
        }
        x := x + 1;
      }
    }

    /**
     * ClearOccupiedGrids: unmarks each in-bounds cell of the unit's footprint that no
     * other unit covers. The check for another unit is the IsPositionOccupiedByUnit scan.
     */
    method ClearOccupiedGrids(unit: Unit)
      requires cellSize > 0.0
      modifies this`occupied
      ensures occupied == old(occupied) - set c | c in Footprint(unit) && !CoveredByOther(units, unit.UnitId, c)
    {
      var gridPos := WorldToGrid(unit.Position);
      var x := 0;
      while x < unit.Width
        invariant 0 <= x && (x <= unit.Width || x == 0)
        invariant forall c :: c in occupied <==> (c in old(occupied) &&
          !(InBox(gridPos, x, unit.Height, c) && IsValidGrid(c) && !CoveredByOther(units, unit.UnitId, c)))
      {
        var z := 0;
        while z < unit.Height
          invariant 0 <= z && (z <= unit.Height || z == 0)
          invariant forall c :: c in occupied <==> (c in old(occupied) &&
            !((InBox(gridPos, x, unit.Height, c) || InBox(Vector2Int(gridPos.x + x, gridPos.y), 1, z, c)) &&
              IsValidGrid(c) && !CoveredByOther(units, unit.UnitId, c)))
        {
          var checkPos := Vector2Int(gridPos.x + x, gridPos.y + z);
          if IsValidGrid(checkPos) {
            var stillOccupied := IsPositionOccupiedByUnit(checkPos, unit.UnitId);
            if !stillOccupied {
              occupied := occupied - {checkPos};
            }
          }
          z := z + 1;
        }
        x := x + 1;
      }
    }

    /** A unit with a fresh id adds exactly its footprint to the covered cells. */
    lemma CoveredInsert(us: map<int, Unit>, u: Unit)
      requires cellSize > 0.0 && u.UnitId !in us
      ensures Covered(us[u.UnitId := u]) == Covered(us) + Footprint(u)
    {
      var us' := us[u.UnitId := u];
      forall c | c in Covered(us')
        ensures c in Covered(us) + Footprint(u)
      {
        var id :| id in us' && Covers(us'[id], c);
        if id != u.UnitId {
          assert us[id] == us'[id];
        }
      }
      forall c | c in Covered(us)
        ensures c in Covered(us')
      {
        var id :| id in us && Covers(us[id], c);
        assert us'[id] == us[id];
      }
      assert forall c :: c in Footprint(u) ==> Covers(us'[u.UnitId], c);
    }

    /**
     * With every unit filed under its own id, clearing unit id's footprint leaves exactly
     * the cells the other units cover.
     */
    lemma CoveredRemove(us: map<int, Unit>, id: int)
      requires cellSize > 0.0 && id in us
      requires forall k :: k in us ==> us[k].UnitId == k
      ensures Covered(us) - (set c | c in Footprint(us[id]) && !CoveredByOther(us, id, c)) == Covered(us - {id})
    {
      var rest := us - {id};
      var freed := set c | c in Footprint(us[id]) && !CoveredByOther(us, id, c);
      forall c | c in Covered(us) - freed
        ensures c in Covered(rest)
      {
        var k :| k in us && Covers(us[k], c);
        if k == id {
          assert CoveredByOther(us, id, c);
          var k' :| k' in us && us[k'].UnitId != id && Covers(us[k'], c);
          assert rest[k'] == us[k'];
        } else {
          assert rest[k] == us[k];
        }
      }
      forall c | c in Covered(rest)
        ensures c in Covered(us) - freed
      {
        var k :| k in rest && Covers(rest[k], c);
        assert us[k] == rest[k] && us[k].UnitId != id;
        assert CoveredByOther(us, id, c);
      }
    }

    /** AddUnit: a new id is registered and its footprint marked; a known id is ignored. */
    method AddUnit(unit: Unit)
      requires Valid()
      modifies this
      ensures Valid()
      ensures unit.UnitId in old(units) ==> units == old(units) && occupied == old(occupied)
      ensures unit.UnitId !in old(units) ==>
        units == old(units)[unit.UnitId := unit] && occupied == old(occupied) + Footprint(unit)
    {
      if unit.UnitId !in units {
        CoveredInsert(units, unit);
        units := units[unit.UnitId := unit];
        UpdateOccupiedGrids(unit);
      }
    }

    /**
     * RemoveUnit: unmarks the unit's cells no other unit covers, then drops the unit; an
     * unknown id changes nothing.
     */
    method RemoveUnit(unitId: int)
      requires Valid()
      modifies this
      ensures Valid()
      ensures unitId !in old(units) ==> units == old(units) && occupied == old(occupied)
      ensures unitId in old(units) ==> units == old(units) - {unitId}
    {
      if unitId in units {
        var unit := units[unitId];
        CoveredRemove(units, unitId);
        ClearOccupiedGrids(unit);
        units := units - {unitId};
      }
    }

    /**
     * UpdateUnitPosition: unmarks the unit's cells no other unit covers, moves the unit
     * and marks its new footprint; an unknown id changes nothing.
     */
    method UpdateUnitPosition(unitId: int, newPosition: Vec3)
      requires Valid()
      modifies this
      ensures Valid()
      ensures unitId !in old(units) ==> units == old(units) && occupied == old(occupied)
      ensures unitId in old(units) ==>
        units == old(units)[unitId := old(units)[unitId].(Position := newPosition)]
    {
      if unitId in units {
        var unit := units[unitId];
        CoveredRemove(units, unitId);
        ClearOccupiedGrids(unit);
        var moved := unit.(Position := newPosition);
        CoveredInsert(units - {unitId}, moved);
        assert (units - {unitId})[unitId := moved] == units[unitId := moved];
        units := units[unitId := moved];
        UpdateOccupiedGrids(moved);
      }
    }

    /** ClearAllUnits: no units and no occupied cells. */
    method ClearAllUnits()
      requires cellSize > 0.0
      modifies this
      ensures Valid()
      ensures units == map[] && occupied == {}
    {
      units := map[];
      occupied := {};
    }

    /**
     * What IsPositionOccupied computes as written: some cell of the footprint at the
     * position is marked and NOT covered by any unit other than excludeUnitId.
     */
    ghost predicate OccupiedAsWritten(position: Vec3, unitWidth: int, unitHeight: int, excludeUnitId: int)
      requires cellSize > 0.0
      reads this
    {
      exists c :: InBox(WorldToGrid(position), unitWidth, unitHeight, c) && c in occupied &&
        !CoveredByOther(units, excludeUnitId, c)
    }

    /**
     * What IsPositionOccupied is meant to compute: some cell of the footprint at the
     * position is marked and covered by a unit other than excludeUnitId.
     */
    ghost predicate Occupied(position: Vec3, unitWidth: int, unitHeight: int, excludeUnitId: int)
      requires cellSize > 0.0
      reads this
    {
      exists c :: InBox(WorldToGrid(position), unitWidth, unitHeight, c) && c in occupied &&
        CoveredByOther(units, excludeUnitId, c)
    }

    /** IsPositionOccupied as written, with the negated call to IsPositionOccupiedByUnit. */
    method IsPositionOccupiedAsWritten(position: Vec3, unitWidth: int := 1, unitHeight: int := 1,
                                       excludeUnitId: int := -1) returns (r: bool)
      requires cellSize > 0.0
      ensures r <==> OccupiedAsWritten(position, unitWidth, unitHeight, excludeUnitId)
    {
      var gridPos := WorldToGrid(position);
      var x := 0;
      while x < unitWidth
        invariant 0 <= x && (x <= unitWidth || x == 0)
        invariant forall c :: InBox(gridPos, x, unitHeight, c) && c in occupied ==>
          CoveredByOther(units, excludeUnitId, c)
      {
        var z := 0;
        while z < unitHeight
          invariant 0 <= z && (z <= unitHeight || z == 0)
          invariant forall c ::
            ((InBox(gridPos, x, unitHeight, c) || InBox(Vector2Int(gridPos.x + x, gridPos.y), 1, z, c)) &&
             c in occupied) ==> CoveredByOther(units, excludeUnitId, c)
        {
          var checkPos := Vector2Int(gridPos.x + x, gridPos.y + z);
          if checkPos in occupied {
            var byOther := IsPositionOccupiedByUnit(checkPos, excludeUnitId);
            if !byOther {
              assert InBox(gridPos, unitWidth, unitHeight, checkPos);
              return true;
            }
          }
          z := z + 1;
        }
        x := x + 1;
      }
      return false;
    }

    /** IsPositionOccupied as its comments describe it: occupied by a unit other than excludeUnitId. */
    method IsPositionOccupied(position: Vec3, unitWidth: int := 1, unitHeight: int := 1,
                              excludeUnitId: int := -1) returns (r: bool)
      requires cellSize > 0.0
      ensures r <==> Occupied(position, unitWidth, unitHeight, excludeUnitId)
    {
      var gridPos := WorldToGrid(position);
      var x := 0;
      while x < unitWidth
        invariant 0 <= x && (x <= unitWidth || x == 0)
        invariant forall c :: InBox(gridPos, x, unitHeight, c) && c in occupied ==>
          !CoveredByOther(units, excludeUnitId, c)
      {
        var z := 0;
        while z < unitHeight
          invariant 0 <= z && (z <= unitHeight || z == 0)
          invariant forall c ::
            ((InBox(gridPos, x, unitHeight, c) || InBox(Vector2Int(gridPos.x + x, gridPos.y), 1, z, c)) &&
             c in occupied) ==> !CoveredByOther(units, excludeUnitId, c)
        {
          var checkPos := Vector2Int(gridPos.x + x, gridPos.y + z);
          if checkPos in occupied {
            var byOther := IsPositionOccupiedByUnit(checkPos, excludeUnitId);
            if byOther {
              assert InBox(gridPos, unitWidth, unitHeight, checkPos);
              return true;
            }
          }
          z := z + 1;
        }
        x := x + 1;
      }
      return false;
    }

    /**
     * Under the invariant a marked cell is always covered by some registered unit, so
     * when no registered unit carries excludeUnitId (the default -1, say) the query as
     * written is false, while the intended query is true as soon as one footprint cell
     * is on the map and covered by a unit.
     */
    lemma AsWrittenMissesUnits(position: Vec3, unitWidth: int, unitHeight: int, excludeUnitId: int)
      requires Valid()
      requires excludeUnitId !in units
      ensures !OccupiedAsWritten(position, unitWidth, unitHeight, excludeUnitId)
      ensures Occupied(position, unitWidth, unitHeight, excludeUnitId) <==>
        exists c :: InBox(WorldToGrid(position), unitWidth, unitHeight, c) && c in occupied
    {
      forall c | c in occupied
        ensures CoveredByOther(units, excludeUnitId, c)
      {
        var id :| id in units && Covers(units[id], c);
        assert units[id].UnitId == id != excludeUnitId;
      }
    }

    /**
     * Under the invariant the intended query holds exactly when some on-map cell of the
     * footprint is covered by a unit other than excludeUnitId.
     */
    lemma OccupiedMeans(position: Vec3, unitWidth: int, unitHeight: int, excludeUnitId: int)
      requires Valid()
      ensures Occupied(position, unitWidth, unitHeight, excludeUnitId) <==>
        exists c :: InBox(WorldToGrid(position), unitWidth, unitHeight, c) && IsValidGrid(c) &&
          CoveredByOther(units, excludeUnitId, c)
    {
      forall c | IsValidGrid(c) && CoveredByOther(units, excludeUnitId, c)
        ensures c in occupied
      {
        var id :| id in units && units[id].UnitId != excludeUnitId && Covers(units[id], c);
      }
    }

    /** The centre of a path cell, as IsPathBlocked probes it. */
    function CellCentre(g: Grid): Vec3
      requires cellSize > 0.0
    {
      GridToWorld(Vector2Int(g.X, g.Z))
    }

    /**
     * IsPathBlocked as written: it probes each cell centre with IsPositionOccupied, whose
     * negated call to IsPositionOccupiedByUnit is kept, so a cell counts as blocking when it
     * is marked and NOT covered by a unit other than unitId.
     */
    method IsPathBlocked(path: seq<Grid>, unitId: int) returns (r: bool)
      requires cellSize > 0.0
      ensures r <==> exists i :: 0 <= i < |path| && OccupiedAsWritten(CellCentre(path[i]), 1, 1, unitId)
    {
      var i := 0;
      while i < |path|
        invariant 0 <= i <= |path|
        invariant forall k :: 0 <= k < i ==> !OccupiedAsWritten(CellCentre(path[k]), 1, 1, unitId)
      {
        var blocked := IsPositionOccupiedAsWritten(GridToWorld(Vector2Int(path[i].X, path[i].Z)), 1, 1, unitId);
        if blocked {
          return true;
        }
        i := i + 1;
      }
      return false;
    }

    /**
     * Under the invariant the path query as written reports a cell only when the cell is on
     * the map and lies in the footprint of unit unitId itself and of no other unit: the
     * caller's own unit is what "blocks" its path, and other units never do.
     */
    lemma PathBlockedAsWrittenMeans(path: seq<Grid>, unitId: int)
      requires Valid()
      ensures (exists i :: 0 <= i < |path| && OccupiedAsWritten(CellCentre(path[i]), 1, 1, unitId)) <==>
        exists i :: 0 <= i < |path| && IsValidGrid(Vector2Int(path[i].X, path[i].Z)) &&
          unitId in units && Covers(units[unitId], Vector2Int(path[i].X, path[i].Z)) &&
          !CoveredByOther(units, unitId, Vector2Int(path[i].X, path[i].Z))
    {
      forall i | 0 <= i < |path|
        ensures OccupiedAsWritten(CellCentre(path[i]), 1, 1, unitId) <==>
          IsValidGrid(Vector2Int(path[i].X, path[i].Z)) && unitId in units &&
          Covers(units[unitId], Vector2Int(path[i].X, path[i].Z)) &&
          !CoveredByOther(units, unitId, Vector2Int(path[i].X, path[i].Z))
      {
        var c := Vector2Int(path[i].X, path[i].Z);
        GridRoundTrip(c);
        assert forall d :: InBox(c, 1, 1, d) ==> d == c;
        if c in occupied && !CoveredByOther(units, unitId, c) {
          var id :| id in units && Covers(units[id], c);
          assert units[id].UnitId == id;
        }
      }
    }

    /**
     * Under the invariant the path query as written is false whenever unitId is not a
     * registered unit, however many units stand on the path.
     */
    lemma PathBlockedAsWrittenMissesUnits(path: seq<Grid>, unitId: int)
      requires Valid()
      requires unitId !in units
      ensures !exists i :: 0 <= i < |path| && OccupiedAsWritten(CellCentre(path[i]), 1, 1, unitId)
    {
      forall i | 0 <= i < |path|
        ensures !OccupiedAsWritten(CellCentre(path[i]), 1, 1, unitId)
      {
        AsWrittenMissesUnits(CellCentre(path[i]), 1, 1, unitId);
      }
    }

    /** IsPathBlocked as its comment describes it: some path cell is occupied by another unit. */
    method IsPathBlockedIntended(path: seq<Grid>, unitId: int) returns (r: bool)
      requires cellSize > 0.0
      ensures r <==> exists i :: 0 <= i < |path| && Occupied(CellCentre(path[i]), 1, 1, unitId)
    {
      var i := 0;
      while i < |path|
        invariant 0 <= i <= |path|
        invariant forall k :: 0 <= k < i ==> !Occupied(CellCentre(path[k]), 1, 1, unitId)
      {
        var blocked := IsPositionOccupied(GridToWorld(Vector2Int(path[i].X, path[i].Z)), 1, 1, unitId);
        if blocked {
          return true;
        }
        i := i + 1;
      }
      return false;
    }

    /**
     * Under the invariant a path is blocked exactly when one of its cells is on the map
     * and inside the footprint of a unit other than unitId.
     */
    lemma PathBlockedMeans(path: seq<Grid>, unitId: int)
      requires Valid()
      ensures (exists i :: 0 <= i < |path| && Occupied(CellCentre(path[i]), 1, 1, unitId)) <==>
        exists i :: 0 <= i < |path| && IsValidGrid(Vector2Int(path[i].X, path[i].Z)) &&
          CoveredByOther(units, unitId, Vector2Int(path[i].X, path[i].Z))
    {
      forall i | 0 <= i < |path|
        ensures Occupied(CellCentre(path[i]), 1, 1, unitId) <==>
          IsValidGrid(Vector2Int(path[i].X, path[i].Z)) && CoveredByOther(units, unitId, Vector2Int(path[i].X, path[i].Z))
      {
        var c := Vector2Int(path[i].X, path[i].Z);
        GridRoundTrip(c);
        OccupiedMeans(CellCentre(path[i]), 1, 1, unitId);
        assert forall d :: InBox(c, 1, 1, d) ==> d == c;
      }
    }
  }
}
