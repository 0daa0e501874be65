# Pathfinding core of the CodingPractice Unity prototype, in Dafny

The prototype moves units on a 10 x 10 board with two path finders.

- **A\* search.** EnemyAI.cs and PlayerUnit.cs each carry a copy, token for token the same. Both copies are modelled once, in module `AStar` (astar.dfy), and the table below cites the EnemyAI.cs copy. The PlayerUnit.cs copy sits at these lines: FindPath 66-123, selection 81-88, GetNeighbors 125-139, IsObstacle 141-150, GetDistance 152-157, RetracePath 159-172. The model works over:
  - integer cells;
  - the 100-entry obstacle mask of ObstacleData, indexed `y * 10 + x`, with out-of-bounds cells blocked.

  Search nodes are immutable values. The closed nodes form a sequence, and a node's parent is an index into it. The relaxation test compares a cost with itself and never fires, so the first discovery of a position fixes its parent and cost. No optimality is claimed. The model proves four things:
  - a returned path is a repetition-free walk of free, in-bounds, 4-adjacent cells from the start (excluded) to the target (included);
  - the search answers `null` exactly when no such walk exists;
  - a blocked target other than the start gives `null`;
  - the loop runs at most 100 rounds for an in-bounds start, because each position is closed at most once.
- **Units.**
  - `Enemy.EnemyAI` (enemy_ai.dfy) plans a path to the player's cell and drops its last cell, so it stops next to the player. `FindAdjacentEmptyTile` picks the first free neighbour, or stays put when every neighbour is blocked.
  - `Player.PlayerUnit` (player_unit.dfy) refuses a tile an enemy stands on. Otherwise it follows the whole path, which ends on the clicked tile.
- **The wavefront of GridBehaviour** (`Pathfinding.GridBehaviour`, grid_behaviour.dfy).
  - The rows x columns table holds tiles in some slots. In the model a slot without a tile acts as a wall. In the source TestDirection, SetVisited, SetDistance's pass (GridBehaviour.cs:170) and SetPath's end test (GridBehaviour.cs:113) all skip such a slot; only InitializeGrid dereferences it and throws (see "## Findings"), so the model's SetDistance runs the corrected InitializeGrid.
  - `SetDistance` labels every tile with its breadth-first distance from the start, pass by pass.
  - `SetPath` walks back from the end along labels that decrease by one. At each step it takes the candidate nearest the end, the first one on ties.
  - The class keeps the labels as a map from slot to label, which its methods reassign. The set of slots holding a tile is a constant.
  - The pure specification of the labelling lives in module `Wavefront` (wavefront.dfy):
    - the layers reachable in k steps;
    - their depths;
    - proofs that the labels are shortest-walk distances, that rows x columns - 1 passes reach every connected tile, and that a full table gets the Manhattan distance.
- **Shared cells.** Module `Grid` (grid.dfy) holds the cells, the Manhattan distance (`GetDistance`) and 4-adjacency that all of the above share.

## Model

| member | source | states |
|---|---|---|
| Grid.Distance | CodingPractice/Assets/Scripts/EnemyAI.cs:126-131 | GetDistance is zero exactly when the two cells are equal |
| Grid.DistanceSymmetric | CodingPractice/Assets/Scripts/EnemyAI.cs:126-131 | GetDistance is symmetric |
| Grid.AdjacentCases | CodingPractice/Assets/Scripts/EnemyAI.cs:101-107 | the cells at distance 1 are exactly the four cells -x, +x, -y, +y |
| Grid.DistanceStep | CodingPractice/Assets/Scripts/EnemyAI.cs:79-80 | a step to a neighbour changes the distance to any cell by exactly one |
| AStar.Index | CodingPractice/Assets/Scripts/EnemyAI.cs:122-123 | `y * 10 + x` of an in-bounds cell is an index into the 100-entry mask |
| AStar.CellAt | CodingPractice/Assets/Scripts/ObstacleManager.cs:19-20 | decoding index i < 100 as `(i % 10, i / 10)` gives an in-bounds cell |
| AStar.IndexRoundTrip | CodingPractice/Assets/Scripts/ObstacleManager.cs:19-20 | decoding `y * 10 + x` as `(i % 10, i / 10)` gives the cell back |
| AStar.CellAtRoundTrip | CodingPractice/Assets/Scripts/ObstacleManager.cs:19-20 | encoding the decoded cell of index i gives i back |
| AStar.IsObstacle | CodingPractice/Assets/Scripts/EnemyAI.cs:115-124 | out-of-bounds cells are blocked; an in-bounds cell is blocked exactly when its mask entry is set |
| AStar.RemoveOutOfBounds | CodingPractice/Assets/Scripts/EnemyAI.cs:109-110 | RemoveAll leaves no more cells than it was given, all in bounds |
| AStar.RemoveOutOfBoundsKeeps | CodingPractice/Assets/Scripts/EnemyAI.cs:109-110 | RemoveAll keeps exactly the in-bounds cells |
| AStar.RemoveOutOfBoundsOrdered | CodingPractice/Assets/Scripts/EnemyAI.cs:109-110 | RemoveAll keeps the order of the cells it keeps |
| AStar.NeighborCandidates | CodingPractice/Assets/Scripts/EnemyAI.cs:101-107 | the four candidates GetNeighbors builds, each at distance 1 |
| AStar.GetNeighbors | CodingPractice/Assets/Scripts/EnemyAI.cs:99-113 | at most 4 cells, each in bounds and at distance 1 |
| AStar.NeighborsExact | CodingPractice/Assets/Scripts/EnemyAI.cs:99-113 | the neighbours are exactly the in-bounds cells at distance 1 |
| AStar.NeighborsOrdered | CodingPractice/Assets/Scripts/EnemyAI.cs:99-113 | the neighbours come in the order -x, +x, -y, +y |
| AStar.NeighborsDistinct | CodingPractice/Assets/Scripts/EnemyAI.cs:99-113 | no neighbour is listed twice |
| AStar.Node.FCost | CodingPractice/Assets/Scripts/EnemyAI.cs:199-231 | a Node is a position, a parent (an index into the closed nodes) and its gCost and hCost, with FCost their sum; its position-only Equals is carried by InOpen and by the closed set of positions |
| AStar.StartNode | CodingPractice/Assets/Scripts/EnemyAI.cs:48 | the start node has no parent, no cost so far, and FCost equal to the distance to the target |
| AStar.Better | CodingPractice/Assets/Scripts/EnemyAI.cs:58 | the selection test: lower FCost, or equal FCost and lower hCost; never holds between nodes of equal costs, nor in both directions |
| AStar.SelectCurrent | CodingPractice/Assets/Scripts/EnemyAI.cs:55-62 | the chosen node has minimal FCost, then minimal hCost among equal FCost, and is the first such node in the list |
| AStar.RelaxationIsDead | CodingPractice/Assets/Scripts/EnemyAI.cs:79-82 | `newCostToNeighbor < neighborNode.gCost` never holds, because the node was built with that cost |
| AStar.ContainsByPosition | CodingPractice/Assets/Scripts/EnemyAI.cs:216-230 | `openList.Contains` (InOpen) holds exactly when the position is among the open nodes' positions, whatever their parents and costs, since Node equality is by position |
| AStar.Consider | CodingPractice/Assets/Scripts/EnemyAI.cs:74-92 | one neighbour, dead relaxation test included: adds at most one node, at that position, with the current node as parent and the distance to the target as hCost |
| AStar.Discover | CodingPractice/Assets/Scripts/EnemyAI.cs:72-93 | all neighbours in turn: at most one new node per neighbour, none removed |
| AStar.Expand | CodingPractice/Assets/Scripts/EnemyAI.cs:72-92 | the neighbour loop appends what Discover says: first discoveries only, never re-parented |
| AStar.ConsiderProperties | CodingPractice/Assets/Scripts/EnemyAI.cs:74-91 | one neighbour adds at most one node, with the current node as parent and cost one more; the open list keeps distinct positions, none closed; a free, unclosed neighbour ends up open |
| AStar.DiscoverProperties | CodingPractice/Assets/Scripts/EnemyAI.cs:72-92 | after all neighbours: the old open list is a prefix, new nodes are fresh positions extending the current node, and every free unclosed neighbour is open |
| AStar.Reversed | CodingPractice/Assets/Scripts/EnemyAI.cs:144 | `path.Reverse()` puts element i at position \|s\|-1-i |
| AStar.RetracePath | CodingPractice/Assets/Scripts/EnemyAI.cs:133-146 | the path follows the parent chain from the goal to the start, start excluded, in start-to-goal order |
| AStar.ChainAvoidsLater | CodingPractice/Assets/Scripts/EnemyAI.cs:64-65 | a node closed later never lies on the parent chain of an earlier one |
| AStar.ChainIsWalk | CodingPractice/Assets/Scripts/EnemyAI.cs:133-146 | a retraced chain is a walk of free adjacent cells from the start to the node, without the start or repeats, whose length is the node's gCost |
| AStar.WalkStaysClosed | CodingPractice/Assets/Scripts/EnemyAI.cs:72-77 | once the open list is empty, every walk from the start stays inside the closed set |
| AStar.CloseKeepsArena | CodingPractice/Assets/Scripts/EnemyAI.cs:64-65 | closing the selected node keeps the closed nodes well linked; its position was not closed before |
| AStar.RemoveSelected | CodingPractice/Assets/Scripts/EnemyAI.cs:64-65 | after the removal, the open list keeps distinct, unclosed positions linked into the closed nodes |
| AStar.RoundKeepsInvariant | CodingPractice/Assets/Scripts/EnemyAI.cs:53-92 | a full round keeps the search invariant (open and closed disjoint, open positions distinct, parents closed) |
| AStar.CloseCounts | CodingPractice/Assets/Scripts/EnemyAI.cs:64-65 | each round closes a new position, so at most 100 rounds (101 for an out-of-bounds start) |
| AStar.NextRound | CodingPractice/Assets/Scripts/EnemyAI.cs:53-92 | a round that does not reach the target keeps the loop invariant |
| AStar.FoundPath | CodingPractice/Assets/Scripts/EnemyAI.cs:67-70 | the path returned on reaching the target is a repetition-free walk to the target |
| AStar.ExhaustedMeansUnreachable | CodingPractice/Assets/Scripts/EnemyAI.cs:96 | `null` after the open list empties means no walk reaches the target |
| AStar.BlockedTargetUnreachable | CodingPractice/Assets/Scripts/EnemyAI.cs:74-77 | a blocked target other than the start is unreachable |
| AStar.FindPath | CodingPractice/Assets/Scripts/EnemyAI.cs:40-97 | a result is a walk from the start (excluded) to the target; `null` exactly when unreachable, and always for a blocked target other than the start; at most 100 rounds for an in-bounds start |
| Enemy.FirstFree | CodingPractice/Assets/Scripts/EnemyAI.cs:177-188 | the index of the first free cell: every cell before it is blocked |
| Enemy.FirstFreeUnique | CodingPractice/Assets/Scripts/EnemyAI.cs:177-188 | the first free index is unique |
| Enemy.TrimmedStopsShort | CodingPractice/Assets/Scripts/EnemyAI.cs:33-37 | dropping the last cell drops exactly the target, which appears nowhere else on the path |
| Enemy.TrimmedPlan | CodingPractice/Assets/Scripts/EnemyAI.cs:31-37 | FindPath gives a non-empty path exactly when the player is reachable and elsewhere; the trimmed path plus the player's cell is a path to the player |
| Enemy.EnemyAI.constructor | CodingPractice/Assets/Scripts/EnemyAI.cs:5-11 | an enemy starts idle with no route |
| Enemy.EnemyAI.Move | CodingPractice/Assets/Scripts/EnemyAI.cs:26-38 | a moving enemy changes nothing; an idle one starts exactly when the player is reachable and elsewhere, with the found path minus its last cell, which never contains the player's cell |
| Enemy.EnemyAI.FindAdjacentEmptyTile | CodingPractice/Assets/Scripts/EnemyAI.cs:177-188 | the first free neighbour in GetNeighbors order; the input cell exactly when every neighbour is blocked |
| Player.PlayerUnit.constructor | CodingPractice/Assets/Scripts/PlayerUnit.cs:5-11 | the unit starts idle with no route |
| Player.PlayerUnit.CanMoveToPosition | CodingPractice/Assets/Scripts/PlayerUnit.cs:53-64 | false exactly when some enemy stands on the target |
| Player.PlayerUnit.Click | CodingPractice/Assets/Scripts/PlayerUnit.cs:21-50 | an idle unit starts exactly when no enemy holds the tile and it is reachable; the route is the whole path, untrimmed, ending on the tile |
| Wavefront.Toward | CodingPractice/Assets/Game/Systems/Pathfinding/Scripts/GridBehaviour.cs:65-92 | directions 1-4 are y+1, y-1, x+1, x-1, each an adjacent slot |
| Wavefront.AdjacentIsToward | CodingPractice/Assets/Game/Systems/Pathfinding/Scripts/GridBehaviour.cs:65-92 | the four directions cover exactly the adjacent slots |
| Wavefront.FedIsAdjacent | CodingPractice/Assets/Game/Systems/Pathfinding/Scripts/GridBehaviour.cs:94-104 | some direction test succeeds exactly when an adjacent tile carries the label |
| Wavefront.Spread | CodingPractice/Assets/Game/Systems/Pathfinding/Scripts/GridBehaviour.cs:94-104 | TestAllDirections keeps the tiles and never changes a label other than -1 |
| Wavefront.MarksSpread | CodingPractice/Assets/Game/Systems/Pathfinding/Scripts/GridBehaviour.cs:94-104 | the four guarded SetVisited calls in order label exactly the unlabelled neighbours |
| Wavefront.Mark | CodingPractice/Assets/Game/Systems/Pathfinding/Scripts/GridBehaviour.cs:96-103 | a guarded SetVisited: labels the neighbour only when it is present and unlabelled, and leaves every other label as it was |
| Wavefront.MarkAt | CodingPractice/Assets/Game/Systems/Pathfinding/Scripts/GridBehaviour.cs:154-158 | a guarded SetVisited changes only the named tile, and only when it was -1 |
| Wavefront.Pass | CodingPractice/Assets/Game/Systems/Pathfinding/Scripts/GridBehaviour.cs:168-172 | one pass keeps the tiles and every label already set |
| Wavefront.Sweep | CodingPractice/Assets/Game/Systems/Pathfinding/Scripts/GridBehaviour.cs:168-172 | part of a pass keeps the set of tiles |
| Wavefront.SweepStart | CodingPractice/Assets/Game/Systems/Pathfinding/Scripts/GridBehaviour.cs:168 | before the first slot nothing has changed |
| Wavefront.NotBeforeStart | CodingPractice/Assets/Game/Systems/Pathfinding/Scripts/GridBehaviour.cs:168 | no tile comes before slot (0, 0) |
| Wavefront.SweepStep | CodingPractice/Assets/Game/Systems/Pathfinding/Scripts/GridBehaviour.cs:170-171 | visiting a slot spreads from it exactly when it holds a tile labelled step - 1 |
| Wavefront.SweepStepAt | CodingPractice/Assets/Game/Systems/Pathfinding/Scripts/GridBehaviour.cs:170-171 | the same, tile by tile |
| Wavefront.SweepNextRow | CodingPractice/Assets/Game/Systems/Pathfinding/Scripts/GridBehaviour.cs:168 | the end of a row is the start of the next one in the foreach order |
| Wavefront.RowEndNeighbour | CodingPractice/Assets/Game/Systems/Pathfinding/Scripts/GridBehaviour.cs:168 | slot order across a row boundary, and every tile lies before the end |
| Wavefront.SweepEnd | CodingPractice/Assets/Game/Systems/Pathfinding/Scripts/GridBehaviour.cs:168-172 | sweeping every row is one full pass |
| Wavefront.InLayer | CodingPractice/Assets/Game/Systems/Pathfinding/Scripts/GridBehaviour.cs:160-174 | a tile within k steps is a tile, and so is the start |
| Wavefront.StepIn | CodingPractice/Assets/Game/Systems/Pathfinding/Scripts/GridBehaviour.cs:94-104 | a tile next to one within k steps is within k + 1 |
| Wavefront.LayerMonotone | CodingPractice/Assets/Game/Systems/Pathfinding/Scripts/GridBehaviour.cs:160-174 | the layers grow with k |
| Wavefront.Depth | CodingPractice/Assets/Game/Systems/Pathfinding/Scripts/GridBehaviour.cs:160-174 | the first layer holding a tile |
| Wavefront.DepthStable | CodingPractice/Assets/Game/Systems/Pathfinding/Scripts/GridBehaviour.cs:160-174 | a tile's depth does not change once it is labelled |
| Wavefront.DepthExact | CodingPractice/Assets/Game/Systems/Pathfinding/Scripts/GridBehaviour.cs:160-174 | a tile that first appears in layer j has depth j |
| Wavefront.Labelled | CodingPractice/Assets/Game/Systems/Pathfinding/Scripts/GridBehaviour.cs:160-174 | the labels after s passes cover exactly the tiles |
| Wavefront.LabelledZero | CodingPractice/Assets/Game/Systems/Pathfinding/Scripts/GridBehaviour.cs:55-63 | before any pass: the start tile 0, every other tile -1 |
| Wavefront.FeederAt | CodingPractice/Assets/Game/Systems/Pathfinding/Scripts/GridBehaviour.cs:65-92 | the direction test against label s - 1 finds exactly the neighbours in layer s - 1 |
| Wavefront.PassAdvancesAt | CodingPractice/Assets/Game/Systems/Pathfinding/Scripts/GridBehaviour.cs:166-173 | pass s turns the labels of s - 1 layers into those of s layers, tile by tile |
| Wavefront.PassAdvances | CodingPractice/Assets/Game/Systems/Pathfinding/Scripts/GridBehaviour.cs:166-173 | pass s turns the labels of s - 1 layers into those of s layers, even though a pass sees labels it set itself |
| Wavefront.LayeredAt | CodingPractice/Assets/Game/Systems/Pathfinding/Scripts/GridBehaviour.cs:160-174 | a tile labelled k > 0 has a neighbour labelled k - 1 |
| Wavefront.LabelledIsLayered | CodingPractice/Assets/Game/Systems/Pathfinding/Scripts/GridBehaviour.cs:160-174 | every tile labelled k > 0 has a neighbour labelled k - 1; only the start is labelled 0 |
| Wavefront.AdjacentLabelsClose | CodingPractice/Assets/Game/Systems/Pathfinding/Scripts/GridBehaviour.cs:160-174 | two adjacent labelled tiles differ by at most one, after any number of passes |
| Wavefront.LayerIsWalks | CodingPractice/Assets/Game/Systems/Pathfinding/Scripts/GridBehaviour.cs:160-174 | a tile is within k layers exactly when some walk of at most k steps through tiles reaches it |
| Wavefront.DepthIsShortest | CodingPractice/Assets/Game/Systems/Pathfinding/Scripts/GridBehaviour.cs:160-174 | the depth is the step count of a shortest walk |
| Wavefront.StableStaysStable | CodingPractice/Assets/Game/Systems/Pathfinding/Scripts/GridBehaviour.cs:166 | once a pass adds nothing, no later pass does |
| Wavefront.StableLater | CodingPractice/Assets/Game/Systems/Pathfinding/Scripts/GridBehaviour.cs:166 | stability carries over to the next pass |
| Wavefront.GrowingLayers | CodingPractice/Assets/Game/Systems/Pathfinding/Scripts/GridBehaviour.cs:166 | while passes still add tiles, layer k + 1 holds at least k + 2 tiles |
| Wavefront.TileCount | CodingPractice/Assets/Game/Systems/Pathfinding/Scripts/GridBehaviour.cs:8-9 | a rows x columns table holds at most rows * columns tiles |
| Wavefront.Saturated | CodingPractice/Assets/Game/Systems/Pathfinding/Scripts/GridBehaviour.cs:166 | the rows * columns - 1 passes label exactly the tiles connected to the start |
| Wavefront.LabelsAreDistances | CodingPractice/Assets/Game/Systems/Pathfinding/Scripts/GridBehaviour.cs:160-174 | after SetDistance a tile keeps -1 exactly when unreachable, and otherwise carries its shortest-walk distance |
| Wavefront.FullLayers | CodingPractice/Assets/Game/Systems/Pathfinding/Scripts/GridBehaviour.cs:160-174 | on a full table, layer k is the slots within Manhattan distance k |
| Wavefront.FullLayersWithin | CodingPractice/Assets/Game/Systems/Pathfinding/Scripts/GridBehaviour.cs:160-174 | on a full table, every slot in layer k lies on the table within Manhattan distance k of the start |
| Wavefront.FullLayersCover | CodingPractice/Assets/Game/Systems/Pathfinding/Scripts/GridBehaviour.cs:160-174 | on a full table, every slot within Manhattan distance k of the start is in layer k |
| Wavefront.GridDiameter | CodingPractice/Assets/Game/Systems/Pathfinding/Scripts/GridBehaviour.cs:166 | two slots of the table are at most rows * columns - 1 apart |
| Wavefront.FullGridManhattan | CodingPractice/Assets/Game/Systems/Pathfinding/Scripts/GridBehaviour.cs:160-174 | on a full table every label is the Manhattan distance from the start |
| Pathfinding.SquaredDistance | CodingPractice/Assets/Game/Systems/Pathfinding/Scripts/GridBehaviour.cs:182 | the squared slot distance standing in for Vector3.Distance: never negative, zero exactly on the same slot, one between adjacent slots |
| Pathfinding.SlotsUnderLimit | CodingPractice/Assets/Game/Systems/Pathfinding/Scripts/GridBehaviour.cs:178 | FindClosest's starting threshold lies beyond every pair of slots |
| Pathfinding.Candidates | CodingPractice/Assets/Game/Systems/Pathfinding/Scripts/GridBehaviour.cs:124-139 | at most 4 candidates, each adjacent and carrying the label; there are some exactly when a direction test succeeds |
| Pathfinding.Closest | CodingPractice/Assets/Game/Systems/Pathfinding/Scripts/GridBehaviour.cs:176-190 | the first element nearest the target |
| Pathfinding.NearestUnique | CodingPractice/Assets/Game/Systems/Pathfinding/Scripts/GridBehaviour.cs:182 | the strict `<` leaves a single first-nearest index |
| Pathfinding.TraceHasCandidates | CodingPractice/Assets/Game/Systems/Pathfinding/Scripts/GridBehaviour.cs:124-143 | on labels from SetDistance, a tile labelled step + 1 always has a candidate, so FindClosest never sees an empty list |
| Pathfinding.TraceStep | CodingPractice/Assets/Game/Systems/Pathfinding/Scripts/GridBehaviour.cs:143-146 | one round moves to the chosen candidate, which carries label step |
| Pathfinding.Collected | CodingPractice/Assets/Game/Systems/Pathfinding/Scripts/GridBehaviour.cs:124-139 | the temporary list holds the neighbours labelled step in direction order |
| Pathfinding.RouteEntry | CodingPractice/Assets/Game/Systems/Pathfinding/Scripts/GridBehaviour.cs:113-116 | the path starts with the end tile |
| Pathfinding.TraceFrom | CodingPractice/Assets/Game/Systems/Pathfinding/Scripts/GridBehaviour.cs:122-149 | the tiles the loop appends after a tile labelled step + 1: at most step + 1 of them, one per label below step + 1 |
| Pathfinding.Route | CodingPractice/Assets/Game/Systems/Pathfinding/Scripts/GridBehaviour.cs:112-149 | the whole path SetPath builds: non-empty exactly when the end is present and labelled above 0, then starting at the end with at most label(end) + 1 tiles |
| Pathfinding.TraceDescends | CodingPractice/Assets/Game/Systems/Pathfinding/Scripts/GridBehaviour.cs:122-149 | the walk back descends one label per tile, between adjacent tiles, down to the start |
| Pathfinding.RouteTracesBack | CodingPractice/Assets/Game/Systems/Pathfinding/Scripts/GridBehaviour.cs:106-152 | empty when the end is missing or labelled 0 or less; otherwise label(end) + 1 tiles from the end to the start, labels falling by one, each step to the nearest candidate |
| Pathfinding.RouteIsShortest | CodingPractice/Assets/Game/Systems/Pathfinding/Scripts/GridBehaviour.cs:31-39 | after SetDistance the path is empty exactly when the end is missing, is the start or is unreachable; otherwise it is a shortest walk |
| Pathfinding.RoutedIsShortest | CodingPractice/Assets/Game/Systems/Pathfinding/Scripts/GridBehaviour.cs:106-152 | the same, for any path keeping SetPath's promises with the end present |
| Pathfinding.ResetBefore | CodingPractice/Assets/Game/Systems/Pathfinding/Scripts/GridBehaviour.cs:57-60 | the tiles before a slot are -1, the others untouched |
| Pathfinding.SlotAdvance | CodingPractice/Assets/Game/Systems/Pathfinding/Scripts/GridBehaviour.cs:57 | the next slot in foreach order adds exactly the current slot to those before |
| Pathfinding.ResetAdvance | CodingPractice/Assets/Game/Systems/Pathfinding/Scripts/GridBehaviour.cs:57-60 | resetting one more slot extends the reset prefix |
| Pathfinding.ResetEnd | CodingPractice/Assets/Game/Systems/Pathfinding/Scripts/GridBehaviour.cs:55-63 | every tile -1, then the start 0, is the labelling before any pass |
| Pathfinding.SweepAdvance | CodingPractice/Assets/Game/Systems/Pathfinding/Scripts/GridBehaviour.cs:168-172 | visiting one more slot extends the swept prefix |
| Pathfinding.MarkStep | CodingPractice/Assets/Game/Systems/Pathfinding/Scripts/GridBehaviour.cs:96-97 | a guarded SetVisited is one Mark |
| Pathfinding.GridBehaviour.constructor | CodingPractice/Assets/Game/Systems/Pathfinding/Scripts/GridBehaviour.cs:8-17 | a filled table with its start, end and current labels; no path, no request |
| Pathfinding.GridBehaviour.TestDirection | CodingPractice/Assets/Game/Systems/Pathfinding/Scripts/GridBehaviour.cs:65-92 | true exactly when the direction is 1-4 and the tile there exists and carries `step` |
| Pathfinding.GridBehaviour.SetVisited | CodingPractice/Assets/Game/Systems/Pathfinding/Scripts/GridBehaviour.cs:154-158 | labels the tile, or leaves a missing slot alone; nothing else changes |
| Pathfinding.GridBehaviour.TestAllDirections | CodingPractice/Assets/Game/Systems/Pathfinding/Scripts/GridBehaviour.cs:94-104 | labels exactly the unlabelled neighbours with `step`; set labels never change |
| Pathfinding.GridBehaviour.InitializeGridAsWritten | CodingPractice/Assets/Game/Systems/Pathfinding/Scripts/GridBehaviour.cs:55-63 | throws exactly when a slot lacks a tile, after resetting the slots before it |
| Pathfinding.GridBehaviour.InitializeGrid | CodingPractice/Assets/Game/Systems/Pathfinding/Scripts/GridBehaviour.cs:55-63 | every tile -1 except the start tile, 0 |
| Pathfinding.GridBehaviour.SetDistance | CodingPractice/Assets/Game/Systems/Pathfinding/Scripts/GridBehaviour.cs:160-174 | the labels end as rows * columns - 1 layers: shortest-walk distances, -1 when unreachable |
| Pathfinding.GridBehaviour.VisitAll | CodingPractice/Assets/Game/Systems/Pathfinding/Scripts/GridBehaviour.cs:168-172 | the foreach over the table performs one pass |
| Pathfinding.GridBehaviour.FindClosest | CodingPractice/Assets/Game/Systems/Pathfinding/Scripts/GridBehaviour.cs:176-190 | the first index at minimal distance to the target; index 0 when nothing lies under the threshold |
| Pathfinding.GridBehaviour.SetPath | CodingPractice/Assets/Game/Systems/Pathfinding/Scripts/GridBehaviour.cs:106-152 | the path is the walk back from the end along falling labels, nearest candidate first, or empty |
| Pathfinding.GridBehaviour.Update | CodingPractice/Assets/Game/Systems/Pathfinding/Scripts/GridBehaviour.cs:31-39 | on request: labels from SetDistance, path from SetPath, request cleared; otherwise nothing changes |
| Pathfinding.WallThrows | CodingPractice/Assets/Game/Systems/Pathfinding/Scripts/GridBehaviour.cs:55-63 | InitializeGrid as written throws on a 1 x 2 table whose second slot holds no tile |

## Left out

- Coroutines and the frame loop are not modelled: `MoveAlongPath`, `MoveTowardsPlayer`, `Start`, `Update` of the units, `Vector3.MoveTowards` and `Time.deltaTime`.
  - A unit's `isMoving` becomes true when it is handed a non-empty route. It stays false for an empty one, as MoveAlongPath sets and clears it without yielding.
  - The unit's position is not advanced along the route.
- Enemy.EnemyAI.Move: the push onto a free neighbour when the enemy ends on the player's cell (EnemyAI.cs:162-171) sits inside MoveAlongPath and is not modelled. FindAdjacentEmptyTile is modelled on its own.
- The conversion between world and grid positions (`* 1.1f`, `Mathf.RoundToInt`) and Unity's approximate `Vector3 ==` are floating point. The model takes and returns grid cells and compares them exactly.
- Pathfinding.GridBehaviour.FindClosest:
  - `Vector3.Distance` is replaced by the squared distance in slot units. This orders tiles the same way for scale > 0, since tile (i, j) stands at leftBottom + scale * (j, 0, i).
  - The threshold `scale * rows * columns` becomes (rows * columns)² in those units.
- The mouse, the raycast and the UI are not modelled (PlayerUnit.Update's input part, TileHover, ObstacleEditor). Player.PlayerUnit.Click receives the clicked cell, and the enemies' cells at the moment of the click.
- Prefab instantiation is not modelled (GenerateGrid, GridManager, ObstacleManager). The GridBehaviour constructor receives the slots holding a tile and their current labels. ObstacleData is the obstacle-mask input of the A* search.
- Pathfinding.GridBehaviour.constructor: requires the start and end cells to lie in the table. The source would throw an index exception on any use of a cell outside it.
- Pathfinding.GridBehaviour.SetPath: requires layered labels, meaning every tile labelled k > 0 has a neighbour labelled k - 1 and only the start is labelled 0. SetDistance establishes this, and Update calls SetPath only after it. When the walk back from the end reaches a tile labelled k > 0 with no neighbour labelled k - 1, FindClosest gets an empty list and throws; other labellings that are not layered (a tile other than the start labelled 0, say) are not modelled either.
- Pathfinding.GridBehaviour.SetDistance: calls the corrected InitializeGrid. As written, the call at GridBehaviour.cs:162 throws on any table with a slot that holds no tile, so the source's SetDistance finishes only on full tables, where every tile is connected to the start. The promises that a missing slot acts as a wall and that an unreachable tile keeps -1 (Wavefront.LabelsAreDistances, Pathfinding.RouteIsShortest) hold of the corrected program only. The same goes for Pathfinding.GridBehaviour.Update, which runs SetDistance.
- Pathfinding.GridBehaviour.InitializeGrid: when the start slot holds no tile, the corrected version still resets every tile to -1 and labels no tile 0. The source throws there too (GridBehaviour.cs:62).
- No claim is made that A* returns shortest paths. The relaxation is dead code (AStar.RelaxationIsDead), so the source does not promise it.
- C# `int` overflow is not modelled. The board has 100 cells, and `rows * columns` is assumed to fit.
- `Debug.Log` messages are not modelled, nor are the unused `testArray` in SetDistance and the unused loop variable in SetPath.

## Findings

| source | as written | input that shows it | evidently intended | confidence | as-written member | corrected member |
|---|---|---|---|---|---|---|
| CodingPractice/Assets/Game/Systems/Pathfinding/Scripts/GridBehaviour.cs:57-60 | the `foreach` dereferences every slot of `gridArray`, so a slot without a tile throws inside SetDistance (line 162), before its first pass | a 1 x 2 table whose slot (0, 1) holds no tile (Pathfinding.WallThrows) | skip missing slots, as TestDirection, SetVisited, SetDistance's pass (line 170) and SetPath's end test (line 113) do, so that they act as walls | not executed | Pathfinding.GridBehaviour.InitializeGridAsWritten | Pathfinding.GridBehaviour.InitializeGrid |
