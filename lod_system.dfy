/**
 * The level-of-detail maps of the path finder (LODSystem in PathCache.cs): coarse copies
 * of the map whose cells merge 2x2, 4x4 or 8x8 original cells (average height and cost,
 * walkable only when every merged cell is), chosen by distance, with coordinate scaling
 * between the levels.
 */
module LevelsOfDetail {
  import opened Cells
  import opened Maps
  import RVOIntegers

  datatype LODLevel = High | Medium | Low | VeryLow

  /** The enum's value: High = 0 ... VeryLow = 3. */
  function Rank(l: LODLevel): nat
  {
    match l
    case High => 0
    case Medium => 1
    case Low => 2
    case VeryLow => 3
  }

  /** GetLODScale: the number of original cells along each side of a coarse cell. */
  function GetLODScale(l: LODLevel): int
  {
    match l
    case High => 1
    case Medium => 2
    case Low => 4
    case VeryLow => 8
  }

  /** GetLODLevel: full detail below 50, then coarser from 150 and from 300. */
  function GetLODLevel(distance: real): LODLevel
  {
    if distance < 50.0 then High
    else if distance < 150.0 then Medium
    else if distance < 300.0 then Low
    else VeryLow
  }

  /** Each level doubles the scale of the one before: 1, 2, 4, 8. */
  lemma ScaleDoubles(l: LODLevel)
    ensures GetLODScale(l) > 0
    ensures Rank(l) > 0 ==> exists k :: Rank(k) == Rank(l) - 1 && GetLODScale(l) == 2 * GetLODScale(k)
  {
    match l
    case High =>
    case Medium => assert Rank(High) == 0;
    case Low => assert Rank(Medium) == 1;
    case VeryLow => assert Rank(Low) == 2;
  }

  /** A farther distance never gets a finer level. */
  lemma GetLODLevelMonotone(near: real, far: real)
    requires near <= far
    ensures Rank(GetLODLevel(near)) <= Rank(GetLODLevel(far))
    ensures GetLODScale(GetLODLevel(near)) <= GetLODScale(GetLODLevel(far))
  {
  }

  /** LODToOriginal: the original cell at the corner of a coarse cell. */
  function LODToOriginal(l: LODLevel, lodCoord: Vector2Int): Vector2Int
  {
    var scale := GetLODScale(l);
    Vector2Int(lodCoord.x * scale, lodCoord.y * scale)
  }

  /** OriginalToLOD: the coarse cell of an original cell, with C#'s truncating division. */
  function OriginalToLOD(l: LODLevel, originalCoord: Vector2Int): Vector2Int
  {
    var scale := GetLODScale(l);
    Vector2Int(RVOIntegers.Quot(originalCoord.x, scale), RVOIntegers.Quot(originalCoord.y, scale))
  }

  /** Scaling a coarse coordinate up and back down gives it back, negative ones included. */
  lemma LODRoundTrip(l: LODLevel, c: Vector2Int)
    ensures OriginalToLOD(l, LODToOriginal(l, c)) == c
  {
    match l
    case High =>
    case Medium =>
      assert RVOIntegers.Quot(c.x * 2, 2) == c.x && RVOIntegers.Quot(c.y * 2, 2) == c.y;
    case Low =>
      assert RVOIntegers.Quot(c.x * 4, 4) == c.x && RVOIntegers.Quot(c.y * 4, 4) == c.y;
    case VeryLow =>
      assert RVOIntegers.Quot(c.x * 8, 8) == c.x && RVOIntegers.Quot(c.y * 8, 8) == c.y;
  }

  /**
   * An original cell with non-negative coordinates lies in the coarse cell OriginalToLOD
   * gives it: at or after that cell's corner and before the next one.
   */
  lemma OriginalInLOD(l: LODLevel, c: Vector2Int)
    requires c.x >= 0 && c.y >= 0
    ensures var corner := LODToOriginal(l, OriginalToLOD(l, c)); var s := GetLODScale(l);
      corner.x <= c.x < corner.x + s && corner.y <= c.y < corner.y + s
  {
    ScaleDoubles(l);
    var s := GetLODScale(l);
    assert c.x == (c.x / s) * s + c.x % s;
    assert c.y == (c.y / s) * s + c.y % s;
  }

  // ---------------------------------------------------------------------------
  // Merging cells

  /** Mathf.Min. */
  function Min(a: int, b: int): int { if a <= b then a else b }

  /** Mathf.CeilToInt((float)n / scale), for a non-negative n and a positive scale. */
  function CeilDiv(n: nat, scale: int): nat
    requires scale > 0
  {
    (n + scale - 1) / scale
  }

  /** CeilDiv is the ceiling: the coarse cells cover the original ones with less than one to spare. */
  lemma CeilDivIsCeiling(n: nat, scale: int, c: nat)
    requires scale > 0 && c == CeilDiv(n, scale)
    ensures c * scale >= n && (c == 0 || (c - 1) * scale < n)
  {
    var r := (n + scale - 1) % scale;
    assert n + scale - 1 == c * scale + r && 0 <= r < scale;
    if c > 0 {
      assert (c - 1) * scale == c * scale - scale;
    }
  }

  /** The sums CreateLODMap keeps over a block of original cells. */
  datatype Tally = Tally(y: real, cost: real, walkable: int, count: int)

  const NoCells := Tally(0.0, 0.0, 0, 0)

  function Plus(a: Tally, b: Tally): Tally
  {
    Tally(a.y + b.y, a.cost + b.cost, a.walkable + b.walkable, a.count + b.count)
  }

  /** One original cell, or nothing when GetGrid returns null outside the map. */
  ghost function CellTally(m: Map, ox: int, oz: int): Tally
    requires m.Valid()
    reads m, m.grids, m.CellSet
  {
    GridTally(m.GetGrid(ox, oz))
  }

  /** A cell counts once, and once more as walkable when it is; no cell counts nothing. */
  ghost function GridTally(g: Grid?): Tally
    reads g
  {
    if g == null then NoCells
    else Tally(g.Y, g.Cost, if g.IsWalkable() then 1 else 0, 1)
  }

  /** The cells (ox, z) for z in [z0, z1), in loop order. */
  ghost function ColumnTally(m: Map, ox: int, z0: int, z1: int): Tally
    requires m.Valid()
    reads m, m.grids, m.CellSet
    decreases z1 - z0
  {
    if z1 <= z0 then NoCells else Plus(ColumnTally(m, ox, z0, z1 - 1), CellTally(m, ox, z1 - 1))
  }

  /** The cells of [x0, x1) x [z0, z1), column by column as the loops visit them. */
  ghost function BlockTally(m: Map, x0: int, x1: int, z0: int, z1: int): Tally
    requires m.Valid()
    reads m, m.grids, m.CellSet
    decreases x1 - x0
  {
    if x1 <= x0 then NoCells else Plus(BlockTally(m, x0, x1 - 1, z0, z1), ColumnTally(m, x1 - 1, z0, z1))
  }

  ghost predicate AllWalkable(m: Map, x0: int, x1: int, z0: int, z1: int)
    requires m.Valid()
    reads m, m.grids, m.CellSet
  {
    forall ox, oz :: x0 <= ox < x1 && z0 <= oz < z1 && m.InRange(ox, oz) ==> m.grids[ox, oz].IsWalkable()
  }

  /** Within the map, a column counts each of its cells once and its walkable ones. */
  lemma {:induction false} ColumnCounts(m: Map, ox: int, z0: int, z1: int)
    requires m.Valid() && 0 <= ox < m.Width && 0 <= z0 && z1 <= m.Height
    ensures var t := ColumnTally(m, ox, z0, z1);
      0 <= t.walkable <= t.count && (t.count > 0 <==> z0 < z1) &&
      (t.walkable == t.count <==> forall oz :: z0 <= oz < z1 ==> m.grids[ox, oz].IsWalkable())
    decreases z1 - z0
  {
    if z0 < z1 {
      ColumnCounts(m, ox, z0, z1 - 1);
      var t := ColumnTally(m, ox, z0, z1 - 1);
      var w := m.grids[ox, z1 - 1].IsWalkable();
      assert CellTally(m, ox, z1 - 1) == Tally(m.grids[ox, z1 - 1].Y, m.grids[ox, z1 - 1].Cost, if w then 1 else 0, 1);
      if t.walkable == t.count && w {
        forall oz | z0 <= oz < z1 ensures m.grids[ox, oz].IsWalkable() {
          if oz < z1 - 1 {
          }
        }
      }
    }
  }

  /** Within the map, a block counts each of its cells once and its walkable ones. */
  lemma {:induction false} BlockCounts(m: Map, x0: int, x1: int, z0: int, z1: int)
    requires m.Valid() && 0 <= x0 && x1 <= m.Width && 0 <= z0 && z1 <= m.Height
    ensures var t := BlockTally(m, x0, x1, z0, z1);
      0 <= t.walkable <= t.count && (t.count > 0 <==> x0 < x1 && z0 < z1) &&
      (t.walkable == t.count <==> AllWalkable(m, x0, x1, z0, z1))
    decreases x1 - x0
  {
    if x0 < x1 {
      BlockCounts(m, x0, x1 - 1, z0, z1);
      ColumnCounts(m, x1 - 1, z0, z1);
      ColumnWalkable(m, x1 - 1, z0, z1);
      WalkableSplit(m, x0, x1, z0, z1);
    }
  }

  /** A one-column block within the map is all walkable exactly when its column is. */
  lemma ColumnWalkable(m: Map, ox: int, z0: int, z1: int)
    requires m.Valid() && 0 <= ox < m.Width && 0 <= z0 && z1 <= m.Height
    ensures AllWalkable(m, ox, ox + 1, z0, z1) <==> forall oz :: z0 <= oz < z1 ==> m.grids[ox, oz].IsWalkable()
  {
    if forall oz :: z0 <= oz < z1 ==> m.grids[ox, oz].IsWalkable() {
      forall ox', oz | ox <= ox' < ox + 1 && z0 <= oz < z1 && m.InRange(ox', oz)
        ensures m.grids[ox', oz].IsWalkable()
      {
        assert ox' == ox;
      }
    }
  }

  /** A block is all walkable exactly when the block before its last column and that column are. */
  lemma WalkableSplit(m: Map, x0: int, x1: int, z0: int, z1: int)
    requires m.Valid() && x0 < x1
    ensures AllWalkable(m, x0, x1, z0, z1) <==> AllWalkable(m, x0, x1 - 1, z0, z1) && AllWalkable(m, x1 - 1, x1, z0, z1)
  {
    if AllWalkable(m, x0, x1 - 1, z0, z1) && AllWalkable(m, x1 - 1, x1, z0, z1) {
      forall ox, oz | x0 <= ox < x1 && z0 <= oz < z1 && m.InRange(ox, oz)
        ensures m.grids[ox, oz].IsWalkable()
      {
        if ox < x1 - 1 {
        }
      }
    }
  }

  /** The merged cell: average height and cost, walkable only when every merged cell is. */
  function MergedY(t: Tally): real
  {
    if t.count > 0 then t.y / (t.count as real) else 0.0
  }

  function MergedCost(t: Tally): real
  {
    if t.count > 0 then t.cost / (t.count as real) else 1.0
  }

  function MergedBlock(t: Tally): int
  {
    if t.count > 0 && t.walkable == t.count then Walkable else Unwalkable
  }

  /** The original cells merged into coarse cell (x, z) at a scale. */
  ghost function Coarse(m: Map, scale: int, x: int, z: int): Tally
    requires m.Valid()
    reads m, m.grids, m.CellSet
  {
    var startX, startZ := x * scale, z * scale;
    BlockTally(m, startX, Min(startX + scale, m.Width), startZ, Min(startZ + scale, m.Height))
  }

  ghost predicate Merged(g: Grid, t: Tally)
    reads g
  {
    g.Y == MergedY(t) && g.Cost == MergedCost(t) && g.BlockType == MergedBlock(t)
  }

  /** `r` is the map CreateLODMap makes from `m` at a scale. */
  ghost predicate IsCoarse(r: Map, m: Map, scale: int)
    requires m.Valid() && scale > 0
    reads r, r.grids, m, m.grids, m.CellSet, r.CellSet
  {
    r.Valid() && r.Width == CeilDiv(m.Width, scale) && r.Height == CeilDiv(m.Height, scale) &&
    r.CellSize == m.CellSize * (scale as real) &&
    forall x, z :: 0 <= x < r.Width && 0 <= z < r.Height ==> Merged(r.grids[x, z], Coarse(m, scale, x, z))
  }

  /**
   * Every coarse cell merges at least one original cell, and it is walkable exactly when
   * all the original cells it merges are; Wall and Unwalkable both merge to Unwalkable.
   */
  lemma CoarseWalkable(m: Map, scale: int, x: int, z: int)
    requires m.Valid() && scale > 0
    requires 0 <= x < CeilDiv(m.Width, scale) && 0 <= z < CeilDiv(m.Height, scale)
    ensures var startX, startZ := x * scale, z * scale;
      var endX, endZ := Min(startX + scale, m.Width), Min(startZ + scale, m.Height);
      startX < endX && startZ < endZ && Coarse(m, scale, x, z).count > 0 &&
      (MergedBlock(Coarse(m, scale, x, z)) == Walkable <==> AllWalkable(m, startX, endX, startZ, endZ))
  {
    CellStart(m.Width, scale, x);
    CellStart(m.Height, scale, z);
    var startX, startZ := x * scale, z * scale;
    BlockCounts(m, startX, Min(startX + scale, m.Width), startZ, Min(startZ + scale, m.Height));
  }

  lemma {:induction false} MulMonotone(a: int, b: int, k: nat)
    requires a <= b
    ensures a * k <= b * k
  {
    if k > 0 {
      MulMonotone(a, b, k - 1);
      assert a * k == a * (k - 1) + a && b * k == b * (k - 1) + b;
    }
  }

  /** Coarse cell x < CeilDiv(n, scale) starts inside the original range. */
  lemma CellStart(n: nat, scale: int, x: int)
    requires scale > 0 && 0 <= x < CeilDiv(n, scale)
    ensures 0 <= x * scale < n
  {
    var c := CeilDiv(n, scale);
    CeilDivIsCeiling(n, scale, c);
    MulMonotone(x, c - 1, scale);
  }

  /** The merged sums depend only on the original map's array and cells. */
  twostate lemma CoarseFrame(m: Map, new scale: int, new x: int, new z: int)
    requires old(m.Valid()) && unchanged(m, m.grids) && unchanged(m.CellSet)
    ensures m.Valid() && old(Coarse(m, scale, x, z)) == Coarse(m, scale, x, z)
  {
  }

  // ---------------------------------------------------------------------------
  // LODSystem

  class LODSystem {
    const originalMap: Map
    var lodMaps: map<LODLevel, Map>
    const cellSize: real

    /**
     * new LODSystem(originalMap): the Medium, Low and VeryLow maps are computed at once
     * from the map as it is now.
     */
    constructor (originalMap: Map)
      requires originalMap.Valid()
      ensures this.originalMap == originalMap && cellSize == originalMap.CellSize
      ensures lodMaps.Keys == {Medium, Low, VeryLow}
      ensures forall l :: l in lodMaps ==> fresh(lodMaps[l]) && IsCoarse(lodMaps[l], originalMap, GetLODScale(l))
    {
      this.originalMap := originalMap;
      cellSize := originalMap.CellSize;
      lodMaps := map[];
      new;
      PrecomputeLODMaps();
    }

    /** PrecomputeLODMaps: CreateLODMap never returns null, so all three levels are stored. */
    method PrecomputeLODMaps()
      requires originalMap.Valid() && cellSize == originalMap.CellSize
      modifies this`lodMaps
      ensures lodMaps.Keys == old(lodMaps).Keys + {Medium, Low, VeryLow}
      ensures forall l :: l in lodMaps && l != Medium && l != Low && l != VeryLow ==> lodMaps[l] == old(lodMaps)[l]
      ensures forall l :: l in lodMaps && l != High ==> fresh(lodMaps[l]) && IsCoarse(lodMaps[l], originalMap, GetLODScale(l))
    {
      var mediumLOD := CreateLODMap(Medium, 2);
      var lowLOD := CreateLODMap(Low, 4);
      var veryLowLOD := CreateLODMap(VeryLow, 8);
      lodMaps := lodMaps[Medium := mediumLOD][Low := lowLOD][VeryLow := veryLowLOD];
    }

    /** CreateLODMap: a fresh CeilDiv(width) x CeilDiv(height) map of merged cells. */
    method CreateLODMap(lodLevel: LODLevel, scale: int) returns (lodMap: Map)
      requires originalMap.Valid() && cellSize == originalMap.CellSize && scale > 0
      ensures fresh(lodMap) && IsCoarse(lodMap, originalMap, scale)
      ensures fresh(lodMap.grids) && forall g :: g in lodMap.CellSet ==> fresh(g)
    {
      var originalWidth, originalHeight := originalMap.Width, originalMap.Height;
      var lodWidth, lodHeight := CeilDiv(originalWidth, scale), CeilDiv(originalHeight, scale);
      // The coarse cells as they are to be, taken from the original map before any write.
      ghost var target := seq(lodWidth, i requires originalMap.Valid() reads originalMap, originalMap.grids, originalMap.CellSet =>
        seq(lodHeight, j requires originalMap.Valid() reads originalMap, originalMap.grids, originalMap.CellSet =>
          Coarse(originalMap, scale, i, j)));
      var lodCellSize := cellSize * (scale as real);
      lodMap := new Map(lodWidth, lodHeight, lodCellSize);
      var x := 0;
      while x < lodWidth
        invariant 0 <= x <= lodWidth
        invariant lodMap.Valid() && forall g :: g in lodMap.CellSet ==> fresh(g)
        invariant forall i, j :: 0 <= i < x && 0 <= j < lodHeight ==> Merged(lodMap.grids[i, j], target[i][j])
      {
        label Before:
        FillColumn(lodMap, originalMap, scale, x);
        forall i, j | 0 <= i <= x && 0 <= j < lodHeight
          ensures Merged(lodMap.grids[i, j], target[i][j])
        {
          if i < x {
            assert old@Before(Merged(lodMap.grids[i, j], target[i][j]));
          } else {
            CoarseFrame(originalMap, scale, i, j);
          }
        }
        x := x + 1;
      }
      forall i, j | 0 <= i < lodWidth && 0 <= j < lodHeight
        ensures target[i][j] == Coarse(originalMap, scale, i, j)
      {
        CoarseFrame(originalMap, scale, i, j);
      }
    }

      /** GetMap: the original map for High or for a level with no coarse map. */
    function GetMap(lodLevel: LODLevel): (m: Map)
      reads this
      ensures m == originalMap || (lodLevel in lodMaps && m == lodMaps[lodLevel])
      ensures lodLevel == High || lodLevel !in lodMaps ==> m == originalMap
    {
      if lodLevel == High then originalMap
      else if lodLevel in lodMaps then lodMaps[lodLevel]
      else originalMap
    }

    /** GetMapByDistance: the map of the level the distance selects. */
    function GetMapByDistance(distance: real): Map
      reads this
    {
      GetMap(GetLODLevel(distance))
    }

    /** ClearLODMaps: afterwards every level gives the original map. */
    method ClearLODMaps()
      modifies this`lodMaps
      ensures lodMaps == map[]
      ensures forall l :: GetMap(l) == originalMap
    {
      lodMaps := map[];
    }
  }

  /** A freshly built system serves a coarse map of the right scale for every level but High. */
  lemma FreshSystemMaps(s: LODSystem, l: LODLevel)
    requires s.originalMap.Valid() && s.lodMaps.Keys == {Medium, Low, VeryLow}
    requires forall k :: k in s.lodMaps ==> IsCoarse(s.lodMaps[k], s.originalMap, GetLODScale(k))
    ensures l == High ==> s.GetMap(l) == s.originalMap
    ensures l != High ==> GetLODScale(l) > 0 && IsCoarse(s.GetMap(l), s.originalMap, GetLODScale(l))
  {
    assert l != High ==> l in s.lodMaps;
  }

  /** CreateLODMap's loop over the cells of coarse column x. */
  method FillColumn(lodMap: Map, m: Map, scale: int, x: int)
    requires m.Valid() && lodMap.Valid() && scale > 0 && 0 <= x < lodMap.Width
    requires lodMap.CellSet !! m.CellSet
    modifies set j | 0 <= j < lodMap.Height :: lodMap.grids[x, j]
    ensures lodMap.Valid()
    ensures forall j :: 0 <= j < lodMap.Height ==> Merged(lodMap.grids[x, j], Coarse(m, scale, x, j))
  {
    ghost var column := seq(lodMap.Height, j requires m.Valid() reads m, m.grids, m.CellSet => Coarse(m, scale, x, j));
    var z := 0;
    while z < lodMap.Height
      invariant 0 <= z <= lodMap.Height && lodMap.Valid()
      invariant forall j :: 0 <= j < z ==> Merged(lodMap.grids[x, j], column[j])
    {
      label Before:
      FillCell(lodMap, m, scale, x, z);
      CoarseFrame(m, scale, x, z);
      forall j | 0 <= j <= z ensures Merged(lodMap.grids[x, j], column[j]) {
        if j < z {
          assert old@Before(Merged(lodMap.grids[x, j], column[j]));
        }
      }
      z := z + 1;
    }
    forall j | 0 <= j < lodMap.Height ensures column[j] == Coarse(m, scale, x, j) {
      CoarseFrame(m, scale, x, j);
    }
  }

  /**
   * The body of CreateLODMap's cell loop: the sums over the block of original cells,
   * their averages, and the write of coarse cell (x, z).
   */
  method FillCell(lodMap: Map, m: Map, scale: int, x: int, z: int)
    requires m.Valid() && lodMap.Valid() && scale > 0 && lodMap.InRange(x, z)
    requires lodMap.grids[x, z] !in m.CellSet
    modifies lodMap.grids[x, z]
    ensures lodMap.Valid() && Merged(lodMap.grids[x, z], Coarse(m, scale, x, z))
  {
    var startX, startZ := x * scale, z * scale;
    var endX, endZ := Min(startX + scale, m.Width), Min(startZ + scale, m.Height);
    var totalY, totalCost, walkableCount, totalGrids := SumBlock(m, startX, endX, startZ, endZ);
    var avgY := if totalGrids > 0 then totalY / (totalGrids as real) else 0.0;
    var avgCost := if totalGrids > 0 then totalCost / (totalGrids as real) else 1.0;
    var isWalkable := totalGrids > 0 && walkableCount == totalGrids;
    var blockType := if isWalkable then Walkable else Unwalkable;
    ghost var t := Tally(totalY, totalCost, walkableCount, totalGrids);
    assert avgY == MergedY(t) && avgCost == MergedCost(t) && blockType == MergedBlock(t);
    lodMap.SetGrid(x, z, avgY, avgCost, blockType);
  }

  /**
   * The two inner loops of CreateLODMap: the sums over the original cells of
   * [startX, endX) x [startZ, endZ), skipping positions where GetGrid gives null.
   */
  method SumBlock(m: Map, startX: int, endX: int, startZ: int, endZ: int)
    returns (totalY: real, totalCost: real, walkableCount: int, totalGrids: int)
    requires m.Valid()
    ensures Tally(totalY, totalCost, walkableCount, totalGrids) == BlockTally(m, startX, endX, startZ, endZ)
  {
    totalY, totalCost, walkableCount, totalGrids := 0.0, 0.0, 0, 0;
    var ox := startX;
    while ox < endX
      invariant startX <= ox && (ox <= endX || ox == startX)
      invariant Tally(totalY, totalCost, walkableCount, totalGrids) == BlockTally(m, startX, ox, startZ, endZ)
    {
      BlockStep(m, startX, ox, startZ, endZ);
      totalY, totalCost, walkableCount, totalGrids := SumColumn(m, ox, startZ, endZ, totalY, totalCost, walkableCount, totalGrids);
      ox := ox + 1;
    }
  }

  /** The innermost loop: the running sums extended by original column ox over [startZ, endZ). */
  method SumColumn(m: Map, ox: int, startZ: int, endZ: int, y0: real, cost0: real, walkable0: int, count0: int)
    returns (totalY: real, totalCost: real, walkableCount: int, totalGrids: int)
    requires m.Valid()
    ensures Tally(totalY, totalCost, walkableCount, totalGrids) == Plus(Tally(y0, cost0, walkable0, count0), ColumnTally(m, ox, startZ, endZ))
  {
    ghost var start := Tally(y0, cost0, walkable0, count0);
    totalY, totalCost, walkableCount, totalGrids := y0, cost0, walkable0, count0;
    var oz := startZ;
    while oz < endZ
      invariant startZ <= oz && (oz <= endZ || oz == startZ)
      invariant Tally(totalY, totalCost, walkableCount, totalGrids) == Plus(start, ColumnTally(m, ox, startZ, oz))
    {
      ghost var sums := Tally(totalY, totalCost, walkableCount, totalGrids);
      assert ColumnTally(m, ox, startZ, oz + 1) == Plus(ColumnTally(m, ox, startZ, oz), CellTally(m, ox, oz));
      var originalGrid := m.GetGrid(ox, oz);
      if originalGrid != null {
        totalY := totalY + originalGrid.Y;
        totalCost := totalCost + originalGrid.Cost;
        if originalGrid.IsWalkable() {
          walkableCount := walkableCount + 1;
        }
        totalGrids := totalGrids + 1;
      }
      assert Tally(totalY, totalCost, walkableCount, totalGrids) == Plus(sums, GridTally(originalGrid));
      oz := oz + 1;
    }
  }

  /** Adding column x1 to a block of columns [x0, x1). */
  lemma BlockStep(m: Map, x0: int, x1: int, z0: int, z1: int)
    requires m.Valid() && x0 <= x1
    ensures BlockTally(m, x0, x1 + 1, z0, z1) == Plus(BlockTally(m, x0, x1, z0, z1), ColumnTally(m, x1, z0, z1))
  {
  }
}
