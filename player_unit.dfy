/// PlayerUnit (PlayerUnit.cs): the player's unit, which on a click on a tile
/// not held by an enemy asks A* for a path there and follows all of it,
/// ending on the clicked tile.
///
/// The click arrives as the clicked cell; the mouse, the raycast and the
/// tweening in MoveAlongPath are not part of this model. Enemy units are
/// given by the cells they stand on when the click is handled.
module Player {
  import opened Grid
  import opened AStar

  class PlayerUnit {
    /** ObstacleData.obstacleGrid, fixed while the game runs. */
    const grid: ObstacleGrid
    /** The unit's cell. */
    var position: Cell
    var isMoving: bool
    /** The path last handed to MoveAlongPath. */
    var route: seq<Cell>

    constructor (grid: ObstacleGrid, position: Cell)
      ensures this.grid == grid && this.position == position
      ensures !isMoving && route == []
    {
      this.grid := grid;
      this.position := position;
      isMoving := false;
      route := [];
    }

    /** A tile can be moved to unless some enemy stands on it. */
    method CanMoveToPosition(enemies: seq<Cell>, target: Cell) returns (ok: bool)
      ensures ok <==> forall i :: 0 <= i < |enemies| ==> enemies[i] != target
    {
      for i := 0 to |enemies|
        invariant forall j :: 0 <= j < i ==> enemies[j] != target
      {
        if enemies[i] == target {
          return false;
        }
      }
      return true;
    }

    /**
     * A click on `tile` while idle: when no enemy holds the tile and A*
     * finds a path, the unit follows the whole path, which ends on the tile.
     * MoveAlongPath marks the unit as moving until it has walked the path;
     * an empty path ends at once.
     */
    method Click(tile: Cell, enemies: seq<Cell>) returns (started: bool)
      modifies this
      ensures position == old(position)
      ensures old(isMoving) ==> !started && isMoving && route == old(route)
      ensures !old(isMoving) ==> (started <==> tile !in enemies && Reachable(grid, position, tile))
      ensures started ==> PathTo(grid, position, tile, route)
      ensures started ==> (isMoving <==> route != [])
      ensures !started ==> route == old(route) && isMoving == old(isMoving)
    {
      started := false;
      if isMoving {
        return;
      }
      var canMove := CanMoveToPosition(enemies, tile);
      if canMove {
        var path, rounds := FindPath(grid, position, tile);
        if path.Some? {
          route := path.value;
          isMoving := |route| > 0;
          started := true;
        }
      }
    }
  }
}
