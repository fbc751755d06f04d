/** The path-finding map: a bounds-checked two-dimensional array of cells (Map.cs). */
module Maps {
  import opened Cells

  class Map {
    const Width: int
    const Height: int
    const CellSize: real
    const grids: array2<Grid?>

    /** (x, z) addresses a cell of the map. */
    predicate InRange(x: int, z: int) {
      0 <= x < Width && 0 <= z < Height
    }

    /** The cells the map was made with. */
    ghost const CellSet: set<Grid>

    /** Every cell is present, one of the map's own, and knows its coordinates, so no cell is shared. */
    ghost predicate Valid()
      reads this, grids
    {
      grids.Length0 == Width && grids.Length1 == Height &&
      forall x, z :: 0 <= x < Width && 0 <= z < Height ==>
        grids[x, z] != null && grids[x, z] in CellSet && grids[x, z].X == x && grids[x, z].Z == z
    }

    /** new Map(width, height, cellSize = 1): every cell is a fresh default cell. */
    constructor (width: int, height: int, cellSize: real := 1.0)
      requires width >= 0 && height >= 0
      ensures Width == width && Height == height && CellSize == cellSize
      ensures Valid() && fresh(grids) && forall g :: g in CellSet ==> fresh(g)
      ensures forall x, z :: 0 <= x < width && 0 <= z < height ==>
        fresh(grids[x, z]) && grids[x, z].Y == 0.0 && grids[x, z].Cost == 1.0 && grids[x, z].IsWalkable()
    {
      Width, Height, CellSize := width, height, cellSize;
      var a := new Grid?[width, height];
      var x := 0;
      while x < width
        invariant 0 <= x <= width
        invariant forall i, j :: 0 <= i < x && 0 <= j < height ==>
          a[i, j] != null && fresh(a[i, j]) && a[i, j].X == i && a[i, j].Z == j &&
          a[i, j].Y == 0.0 && a[i, j].Cost == 1.0 && a[i, j].BlockType == Walkable
      {
        var z := 0;
        while z < height
          invariant 0 <= z <= height
          invariant forall i, j :: (0 <= i < x && 0 <= j < height) || (i == x && 0 <= j < z) ==>
            a[i, j] != null && fresh(a[i, j]) && a[i, j].X == i && a[i, j].Z == j &&
            a[i, j].Y == 0.0 && a[i, j].Cost == 1.0 && a[i, j].BlockType == Walkable
        {
          var g := new Grid(x, z);
          a[x, z] := g;
          z := z + 1;
        }
        x := x + 1;
      }
      grids := a;
      CellSet := set i, j | 0 <= i < width && 0 <= j < height :: a[i, j] as Grid;
    }

    /** GetGrid: the cell at (x, z), or null outside the map. */
    function GetGrid(x: int, z: int): (g: Grid?)
      requires Valid()
      reads this, grids
      ensures g == null <==> !InRange(x, z)
      ensures g != null ==> g.X == x && g.Z == z
    {
      if x < 0 || x >= Width || z < 0 || z >= Height then null else grids[x, z]
    }

    /**
     * SetGrid: outside the map nothing happens; inside, only that cell's height, cost and
     * kind change.
     */
    method SetGrid(x: int, z: int, y: real, cost: real, blockType: int)
      requires Valid()
      modifies if InRange(x, z) then {grids[x, z]} else {}
      ensures Valid()
      ensures InRange(x, z) ==>
        grids[x, z].Y == y && grids[x, z].Cost == cost && grids[x, z].BlockType == blockType
      ensures forall i, j :: InRange(i, j) && (i != x || j != z) ==>
        grids[i, j].Y == old(grids[i, j].Y) && grids[i, j].Cost == old(grids[i, j].Cost) &&
        grids[i, j].BlockType == old(grids[i, j].BlockType)
    {
      if x < 0 || x >= Width || z < 0 || z >= Height {
        return;
      }
      var grid := grids[x, z];
      grid.SetY(y);
      grid.SetCost(cost);
      grid.SetBlockType(blockType);
    }
  }
}
