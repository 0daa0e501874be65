/// EnemyAI (EnemyAI.cs): an enemy unit that, whenever it is idle, plans an
/// A* path to the player's cell and follows it up to, but not onto, that
/// cell; and the rule that pushes it off the player's cell onto the first
/// free neighbour.
///
/// Positions are grid cells. The float world positions, the tweening in
/// MoveAlongPath and the coroutine that calls Move once a second are not
/// part of this model.
module Enemy {
  import opened Grid
  import opened AStar

  /**
   * How many cells at the front of `ns` are blocked: the index of the first
   * free cell, or |ns| when every cell is blocked.
   */
  function FirstFree(grid: ObstacleGrid, ns: seq<Cell>): (k: nat)
    ensures k <= |ns|
    ensures forall j :: 0 <= j < k ==> IsObstacle(grid, ns[j])
    ensures k < |ns| ==> !IsObstacle(grid, ns[k])
    decreases |ns|
  {
    if ns == [] then 0
    else if !IsObstacle(grid, ns[0]) then 0
    else 1 + FirstFree(grid, ns[1..])
  }

  /**
   * A path FindPath returned, with its last cell dropped as Move does: what
   * is left plus the target is the whole path, and the target is not on it.
   */
  lemma TrimmedStopsShort(grid: ObstacleGrid, start: Cell, target: Cell, p: seq<Cell>)
    requires PathTo(grid, start, target, p) && |p| > 0
    ensures p[..|p| - 1] + [target] == p
    ensures target !in p[..|p| - 1]
  {
    var q := p[..|p| - 1];
    assert p == q + [p[|p| - 1]];
    forall i | 0 <= i < |q| ensures q[i] != target {
      assert q[i] == p[i];
    }
  }

  /**
   * What Move makes of FindPath's answer: it has a non-empty path exactly
   * when the player is reachable and elsewhere, and that path trimmed of
   * its last cell, plus the player's cell, is a path to the player.
   */
  lemma TrimmedPlan(grid: ObstacleGrid, start: Cell, target: Cell, found: Option<seq<Cell>>)
    requires found.Some? ==> PathTo(grid, start, target, found.value)
    requires found.None? <==> !Reachable(grid, start, target)
    ensures found.Some? && |found.value| > 0 <==> Reachable(grid, start, target) && start != target
    ensures found.Some? && |found.value| > 0 ==>
      PathTo(grid, start, target, found.value[..|found.value| - 1] + [target]) &&
      target !in found.value[..|found.value| - 1]
  {
    if found.Some? && |found.value| > 0 {
      TrimmedStopsShort(grid, start, target, found.value);
    }
  }

  class EnemyAI {
    /** ObstacleData.obstacleGrid, fixed while the game runs. */
    const grid: ObstacleGrid
    /** The enemy's cell. */
    var position: Cell
    var isMoving: bool
    /** The path last handed to MoveAlongPath. */
    var route: seq<Cell>

    constructor (grid: ObstacleGrid, position: Cell)
      ensures this.grid == grid && this.position == position
      ensures !isMoving && route == []
    {
      this.grid := grid;
      this.position := position;
      isMoving := false;
      route := [];
    }

    /**
     * Move: an idle enemy asks A* for a path to the player and, when it is
     * not empty, follows it without its last cell, so it stops next to the
     * player. MoveAlongPath marks the enemy as moving until it has walked
     * the route; an empty route ends at once.
     */
    method Move(player: Cell) returns (started: bool)
      modifies this
      ensures position == old(position)
      ensures old(isMoving) ==> !started && isMoving && route == old(route)
      ensures !old(isMoving) ==> (started <==> Reachable(grid, position, player) && position != player)
      ensures started ==> PathTo(grid, position, player, route + [player]) && player !in route
      ensures started ==> (isMoving <==> route != [])
      ensures !started ==> route == old(route) && isMoving == old(isMoving)
    {
      started := false;
      if isMoving {
        return;
      }
      var path, rounds := FindPath(grid, position, player);
      TrimmedPlan(grid, position, player, path);
      if path.Some? && |path.value| > 0 {
        route := path.value[..|path.value| - 1];
        isMoving := |route| > 0;
        started := true;
      }
    }

    /**
     * The first neighbour of `current`, in GetNeighbors order, that is not
     * an obstacle; `current` itself when every neighbour is blocked.
     */
    method FindAdjacentEmptyTile(current: Cell) returns (tile: Cell)
      ensures var ns := GetNeighbors(current);
        var k := FirstFree(grid, ns);
        tile == if k < |ns| then ns[k] else current
      ensures tile == current <==> forall n :: n in GetNeighbors(current) ==> IsObstacle(grid, n)
      ensures tile != current ==> Adjacent(current, tile) && InBounds(tile) && !IsObstacle(grid, tile)
    {
      var neighbors := GetNeighbors(current);
      for i := 0 to |neighbors|
        invariant forall j :: 0 <= j < i ==> IsObstacle(grid, neighbors[j])
      {
        if !IsObstacle(grid, neighbors[i]) {
          assert neighbors[i] != current by {
            assert Adjacent(current, neighbors[i]);
          }
          assert FirstFree(grid, neighbors) == i by {
            FirstFreeUnique(grid, neighbors, i);
          }
          return neighbors[i];
        }
      }
      assert FirstFree(grid, neighbors) == |neighbors| by {
        FirstFreeUnique(grid, neighbors, |neighbors|);
      }
      tile := current;
    }
  }

  /** FirstFree is the only index with its two properties. */
  lemma FirstFreeUnique(grid: ObstacleGrid, ns: seq<Cell>, i: nat)
    requires i <= |ns|
    requires forall j :: 0 <= j < i ==> IsObstacle(grid, ns[j])
    requires i < |ns| ==> !IsObstacle(grid, ns[i])
    ensures FirstFree(grid, ns) == i
  {
    var k := FirstFree(grid, ns);
    assert k < |ns| ==> !IsObstacle(grid, ns[k]);
    assert i < |ns| ==> !IsObstacle(grid, ns[i]);
  }
}
