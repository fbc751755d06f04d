/** One cell of the path-finding map (Grid.cs). */
module Cells {

  /** Unity's Vector2Int: a pair of cell coordinates. */
  datatype Vector2Int = Vector2Int(x: int, y: int)

  /** The block kinds of EBlockType, stored in a cell as a plain int. */
  const Walkable: int := 0
  const Unwalkable: int := 1
  const Wall: int := 2

  /**
   * A map cell. The coordinates are fixed when the cell is made; height, path cost and
   * block kind have setters.
   */
  class Grid {
    const X: int
    const Z: int
    var Y: real
    var Cost: real
    var BlockType: int

    /** Only the Walkable kind can be walked on. */
    predicate IsWalkable()
      reads this
    {
      BlockType == Walkable
    }

    /** new Grid(x, z, y = 0, cost = 1, blockType = Walkable) */
    constructor (x: int, z: int, y: real := 0.0, cost: real := 1.0, blockType: int := Walkable)
      ensures X == x && Z == z
      ensures Y == y && Cost == cost && BlockType == blockType
      ensures IsWalkable() <==> blockType == Walkable
    {
      X, Z := x, z;
      Y, Cost, BlockType := y, cost, blockType;
    }

    method SetY(y: real)
      modifies this`Y
      ensures Y == y
    {
      Y := y;
    }

    method SetCost(cost: real)
      modifies this`Cost
      ensures Cost == cost
    {
      Cost := cost;
    }

    method SetBlockType(blockType: int)
      modifies this`BlockType
      ensures BlockType == blockType
      ensures IsWalkable() <==> blockType == Walkable
    {
      BlockType := blockType;
    }
  }
}
