/// The A* search that EnemyAI.cs and PlayerUnit.cs each carry a copy of
/// (EnemyAI.cs:40-146 and PlayerUnit.cs:66-172 are the same code, token for
/// token). Both copies are modelled once, here, and both units call it.
///
/// The search works on the fixed 10 x 10 grid with the 100-entry obstacle mask
/// of ObstacleData. Search nodes are immutable values: the source creates each
/// node with its final position, parent, gCost and hCost, and the writes at
/// EnemyAI.cs:84-86 store the same values again. Parent references become
/// indices into `nodes`, the closed nodes in the order they were closed; index
/// 0 holds the start node, whose parent is -1 (null).
module AStar {
  import opened Grid

  datatype Option<T> = None | Some(value: T)

  /** The grid is Size x Size (the literal 10 of the source). */
  const Size: int := 10
  const CellCount: int := 100

  /** ObstacleData.obstacleGrid: one flag per cell, `true` meaning blocked. */
  type ObstacleGrid = m: seq<bool> | |m| == CellCount witness seq(100, _ => false)

  predicate InBounds(c: Cell)
  {
    0 <= c.x < Size && 0 <= c.y < Size
  }

  /** Position of an in-bounds cell in the obstacle mask, `y * 10 + x`. */
  function Index(c: Cell): (i: nat)
    requires InBounds(c)
    ensures i < CellCount
  {
    c.y * Size + c.x
  }

  /** The decoding ObstacleManager uses to place obstacle `i` at `(i % 10, i / 10)`. */
  function CellAt(i: nat): (c: Cell)
    requires i < CellCount
    ensures InBounds(c)
  {
    Cell(i % Size, i / Size)
  }

  /** Index is the inverse of ObstacleManager's decoding, in both directions. */
  lemma IndexRoundTrip(c: Cell)
    requires InBounds(c)
    ensures CellAt(Index(c)) == c
  {
    var i := c.y * Size + c.x;
    assert i / Size == c.y && i % Size == c.x by {
      assert 0 <= c.x < Size;
    }
  }

  lemma CellAtRoundTrip(i: nat)
    requires i < CellCount
    ensures Index(CellAt(i)) == i
  {
    assert i == (i / Size) * Size + i % Size;
  }

  /** Out-of-bounds cells are blocked; an in-bounds cell is blocked when its flag is set. */
  function IsObstacle(grid: ObstacleGrid, c: Cell): (blocked: bool)
    ensures !InBounds(c) ==> blocked
    ensures InBounds(c) ==> (blocked <==> grid[Index(c)])
  {
    if c.x < 0 || c.x >= Size || c.y < 0 || c.y >= Size then true
    else grid[c.y * Size + c.x]
  }

  /** Where a neighbour stands in the order -x, +x, -y, +y. */
  function Rank(c: Cell, n: Cell): int
  {
    if n.x < c.x then 0 else if n.x > c.x then 1 else if n.y < c.y then 2 else 3
  }

  /**
   * `List.RemoveAll` with the out-of-bounds test of GetNeighbors: keeps the
   * in-bounds cells, in their order.
   */
  function RemoveOutOfBounds(cs: seq<Cell>): (r: seq<Cell>)
    ensures |r| <= |cs|
    ensures forall i :: 0 <= i < |r| ==> InBounds(r[i])
  {
    if cs == [] then []
    else (if InBounds(cs[0]) then [cs[0]] else []) + RemoveOutOfBounds(cs[1..])
  }

  /** The filter keeps exactly the in-bounds cells of its input. */
  lemma {:induction false} RemoveOutOfBoundsKeeps(cs: seq<Cell>)
    ensures forall n :: n in RemoveOutOfBounds(cs) <==> n in cs && InBounds(n)
  {
    if cs != [] {
      RemoveOutOfBoundsKeeps(cs[1..]);
      assert cs == [cs[0]] + cs[1..];
    }
  }

  /** The cells of `s` stand in strictly increasing rank around `c`. */
  predicate RankOrdered(c: Cell, s: seq<Cell>)
  {
    forall i, j :: 0 <= i < j < |s| ==> Rank(c, s[i]) < Rank(c, s[j])
  }

  /** Filtering keeps a strict order by rank around `c`. */
  lemma {:induction false} RemoveOutOfBoundsOrdered(c: Cell, cs: seq<Cell>)
    requires RankOrdered(c, cs)
    ensures RankOrdered(c, RemoveOutOfBounds(cs))
  {
    if cs != [] {
      var rest := cs[1..];
      assert RankOrdered(c, rest) by {
        forall i, j | 0 <= i < j < |rest| ensures Rank(c, rest[i]) < Rank(c, rest[j]) {
          assert rest[i] == cs[i + 1] && rest[j] == cs[j + 1];
        }
      }
      RemoveOutOfBoundsOrdered(c, rest);
      var tail := RemoveOutOfBounds(rest);
      if InBounds(cs[0]) {
        RemoveOutOfBoundsKeeps(rest);
        forall j | 0 <= j < |tail| ensures Rank(c, cs[0]) < Rank(c, tail[j]) {
          assert tail[j] in rest;
          var m :| 0 <= m < |rest| && rest[m] == tail[j];
          assert cs[m + 1] == tail[j];
        }
        var r := RemoveOutOfBounds(cs);
        assert r == [cs[0]] + tail;
        forall i, j | 0 <= i < j < |r| ensures Rank(c, r[i]) < Rank(c, r[j]) {
          assert r[j] == tail[j - 1];
          if i > 0 {
            assert r[i] == tail[i - 1];
          }
        }
      }
    }
  }

  /** The candidate neighbours of GetNeighbors, in its order -x, +x, -y, +y. */
  function NeighborCandidates(c: Cell): (cs: seq<Cell>)
    ensures |cs| == 4
    ensures forall i :: 0 <= i < |cs| ==> Adjacent(c, cs[i])
  {
    [Cell(c.x - 1, c.y), Cell(c.x + 1, c.y), Cell(c.x, c.y - 1), Cell(c.x, c.y + 1)]
  }

  /** The in-bounds cells one step from `c`. */
  function GetNeighbors(c: Cell): (ns: seq<Cell>)
    ensures |ns| <= 4
    ensures forall i :: 0 <= i < |ns| ==> InBounds(ns[i]) && Adjacent(c, ns[i])
  {
    var cs := NeighborCandidates(c);
    RemoveOutOfBoundsKeeps(cs);
    assert forall i :: 0 <= i < |RemoveOutOfBounds(cs)| ==> RemoveOutOfBounds(cs)[i] in cs;
    RemoveOutOfBounds(cs)
  }

  /** The neighbours are exactly the in-bounds cells one step from `c`. */
  lemma NeighborsExact(c: Cell)
    ensures forall n :: n in GetNeighbors(c) <==> InBounds(n) && Adjacent(c, n)
  {
    var cs := NeighborCandidates(c);
    RemoveOutOfBoundsKeeps(cs);
    forall n ensures Adjacent(c, n) <==> n in cs {
      AdjacentCases(c, n);
    }
  }

  /** GetNeighbors lists the neighbours in the order -x, +x, -y, +y. */
  lemma NeighborsOrdered(c: Cell)
    ensures RankOrdered(c, GetNeighbors(c))
  {
    var cs := NeighborCandidates(c);
    assert Rank(c, cs[0]) == 0 && Rank(c, cs[1]) == 1 && Rank(c, cs[2]) == 2 && Rank(c, cs[3]) == 3;
    RemoveOutOfBoundsOrdered(c, cs);
  }

  /** Neighbours are pairwise distinct (their ranks strictly increase). */
  lemma NeighborsDistinct(c: Cell)
    ensures forall i, j :: 0 <= i < j < |GetNeighbors(c)| ==> GetNeighbors(c)[i] != GetNeighbors(c)[j]
  {
    NeighborsOrdered(c);
  }

  /** A search node; `parent` is an index into the closed nodes, -1 for none. */
  datatype Node = Node(pos: Cell, parent: int, gCost: int, hCost: int)
  {
    function FCost(): int
    {
      gCost + hCost
    }
  }

  /** The node the search starts from (EnemyAI.cs:48): no parent, no cost so far. */
  function StartNode(start: Cell, target: Cell): (n: Node)
    ensures n.pos == start && n.parent < 0
    ensures n.FCost() == Distance(start, target)
  {
    Node(start, -1, 0, Distance(start, target))
  }

  /** `a` is chosen over `b`: lower FCost, or equal FCost and lower hCost. */
  predicate Better(a: Node, b: Node): (r: bool)
    ensures r ==> a.FCost() <= b.FCost()
    ensures r ==> !(b.FCost() < a.FCost() || (b.FCost() == a.FCost() && b.hCost < a.hCost))
    ensures a.FCost() == b.FCost() && a.hCost == b.hCost ==> !r
  {
    a.FCost() < b.FCost() || (a.FCost() == b.FCost() && a.hCost < b.hCost)
  }

  /**
   * The scan that picks the node to expand (EnemyAI.cs:55-62): no node is
   * better than the chosen one, and every node before it is strictly worse,
   * so among equally good nodes the first in the list wins.
   */
  method SelectCurrent(open: seq<Node>) returns (k: nat)
    requires |open| > 0
    ensures k < |open|
    ensures forall j {:trigger Better(open[j], open[k])} :: 0 <= j < |open| ==> !Better(open[j], open[k])
    ensures forall j {:trigger Better(open[k], open[j])} :: 0 <= j < k ==> Better(open[k], open[j])
  {
    k := 0;
    for i := 1 to |open|
      invariant k < i
      invariant forall j :: 0 <= j < i ==> !Better(open[j], open[k])
      invariant forall j :: 0 <= j < k ==> Better(open[k], open[j])
    {
      if Better(open[i], open[k]) {
        k := i;
      }
    }
  }

  /** `openList.Contains(node)`: node equality is equality of positions. */
  predicate InOpen(open: seq<Node>, c: Cell)
  {
    exists j :: 0 <= j < |open| && open[j].pos == c
  }

  /**
   * Contains looks a node up by its position alone: it holds exactly when
   * the position is among those of the open nodes, whatever their parents
   * and costs.
   */
  lemma ContainsByPosition(open: seq<Node>, c: Cell, node: Node)
    requires node.pos == c
    ensures InOpen(open, c) <==> c in (set j | 0 <= j < |open| :: open[j].pos)
    ensures node in open ==> InOpen(open, c)
  {
    if InOpen(open, c) {
      var j :| 0 <= j < |open| && open[j].pos == c;
      assert open[j].pos in (set j | 0 <= j < |open| :: open[j].pos);
    }
  }

  /**
   * One pass of the expansion loop (EnemyAI.cs:74-92): the open list after the
   * neighbour `n` of `current` (closed at index `ci`) is considered. The
   * relaxation test compares the new cost with the node that was just built
   * from it, so only its `!Contains` half can hold: a position that is
   * already open keeps its node.
   */
  function Consider(grid: ObstacleGrid, target: Cell, current: Node, ci: int, closed: set<Cell>,
                    open: seq<Node>, n: Cell): (r: seq<Node>)
    ensures |open| <= |r| <= |open| + 1
    ensures |r| > |open| ==> r[|open|].pos == n && r[|open|].parent == ci && r[|open|].hCost == Distance(n, target)
  {
    if IsObstacle(grid, n) || n in closed then open
    else
      var cost := current.gCost + Distance(current.pos, n);
      var node := Node(n, ci, cost, Distance(n, target));
      if cost < node.gCost || !InOpen(open, n) then
        (if !InOpen(open, n) then open + [node] else open)
      else open
  }

  /** The open list after the neighbours `ns` are considered in turn (EnemyAI.cs:72-93). */
  function Discover(grid: ObstacleGrid, target: Cell, current: Node, ci: int, closed: set<Cell>,
                    open: seq<Node>, ns: seq<Cell>): (r: seq<Node>)
    ensures |open| <= |r| <= |open| + |ns|
    decreases |ns|
  {
    if ns == [] then open
    else Discover(grid, target, current, ci, closed, Consider(grid, target, current, ci, closed, open, ns[0]), ns[1..])
  }

  /** The relaxation's cost comparison never holds: the node carries the cost it is compared with. */
  lemma RelaxationIsDead(current: Node, ci: int, n: Cell, target: Cell)
    ensures var cost := current.gCost + Distance(current.pos, n);
            !(cost < Node(n, ci, cost, Distance(n, target)).gCost)
  {
  }

  /** The expansion loop of FindPath over the neighbours `ns` of `current`. */
  method Expand(grid: ObstacleGrid, target: Cell, current: Node, ci: int, closed: set<Cell>, open: seq<Node>,
                ns: seq<Cell>)
    returns (result: seq<Node>)
    ensures result == Discover(grid, target, current, ci, closed, open, ns)
  {
    result := open;
    for i := 0 to |ns|
      invariant Discover(grid, target, current, ci, closed, result, ns[i..]) ==
                Discover(grid, target, current, ci, closed, open, ns)
    {
      assert ns[i..][0] == ns[i] && ns[i..][1..] == ns[i + 1..];
      ghost var before := result;
      var n := ns[i];
      if IsObstacle(grid, n) || n in closed {
        continue;
      }
      var cost := current.gCost + Distance(current.pos, n);
      var node := Node(n, ci, cost, Distance(n, target));
      if cost < node.gCost || !InOpen(result, n) {
        // the source stores gCost, hCost and Parent here again: the values the node already has
        if !InOpen(result, n) {
          result := result + [node];
        }
      }
      assert result == Consider(grid, target, current, ci, closed, before, n);
    }
  }

  /** `n` was discovered from `p`: one step on, onto a free cell, one step costlier. */
  predicate Extends(grid: ObstacleGrid, n: Node, p: Node)
  {
    Adjacent(p.pos, n.pos) && !IsObstacle(grid, n.pos) && n.gCost == p.gCost + 1
  }

  /** No two nodes of `s` stand on the same cell. */
  predicate DistinctPositions(s: seq<Node>)
  {
    forall i, j :: 0 <= i < j < |s| ==> Apart(s, i, j)
  }

  /** Nodes `i` and `j` of `s` stand on different cells. */
  predicate Apart(s: seq<Node>, i: int, j: int)
  {
    0 <= i < |s| && 0 <= j < |s| && s[i].pos != s[j].pos
  }

  lemma InOpenPrefix(a: seq<Node>, b: seq<Node>, c: Cell)
    requires |a| <= |b| && b[..|a|] == a && InOpen(a, c)
    ensures InOpen(b, c)
  {
    var j :| 0 <= j < |a| && a[j].pos == c;
    assert b[j] == a[j];
  }

  /**
   * What considering one neighbour does: existing open nodes are kept as they
   * are, a free unclosed position not yet open is appended as a node one step
   * further from `current`, and nothing else changes.
   */
  lemma ConsiderProperties(grid: ObstacleGrid, target: Cell, current: Node, ci: int,
                           closed: set<Cell>, open: seq<Node>, n: Cell)
    requires forall j :: 0 <= j < |open| ==> open[j].pos !in closed
    requires DistinctPositions(open)
    requires Adjacent(current.pos, n)
    ensures var r := Consider(grid, target, current, ci, closed, open, n);
      r[..|open|] == open &&
      (r == open || (r == open + [r[|open|]] && r[|open|].pos == n && !InOpen(open, n))) &&
      (forall j :: |open| <= j < |r| ==> r[j].parent == ci && Extends(grid, r[j], current)) &&
      (forall j :: 0 <= j < |r| ==> r[j].pos !in closed) &&
      DistinctPositions(r) &&
      (!IsObstacle(grid, n) && n !in closed ==> InOpen(r, n))
  {
    var r := Consider(grid, target, current, ci, closed, open, n);
    if r != open {
      forall i | 0 <= i < |open| ensures open[i].pos != n {
      }
      assert r[|open|].pos == n;
      forall i, j | 0 <= i < j < |r| ensures Apart(r, i, j) {
        if j < |open| {
          assert Apart(open, i, j) && r[i] == open[i] && r[j] == open[j];
        }
      }
    } else if !IsObstacle(grid, n) && n !in closed {
      assert InOpen(open, n);
    }
  }

  /** What one expansion does to the open list, for any neighbour list of `current`. */
  lemma {:induction false} DiscoverProperties(grid: ObstacleGrid, target: Cell, current: Node, ci: int,
                                              closed: set<Cell>, open: seq<Node>, ns: seq<Cell>)
    requires forall j :: 0 <= j < |open| ==> open[j].pos !in closed
    requires DistinctPositions(open)
    requires forall i :: 0 <= i < |ns| ==> Adjacent(current.pos, ns[i])
    ensures var r := Discover(grid, target, current, ci, closed, open, ns);
      |open| <= |r| && r[..|open|] == open &&
      (forall j :: |open| <= j < |r| ==>
         r[j].parent == ci && Extends(grid, r[j], current) && !InOpen(open, r[j].pos)) &&
      (forall j :: 0 <= j < |r| ==> r[j].pos !in closed) &&
      DistinctPositions(r) &&
      (forall i :: 0 <= i < |ns| && !IsObstacle(grid, ns[i]) && ns[i] !in closed ==> InOpen(r, ns[i]))
    decreases |ns|
  {
    if ns != [] {
      var n := ns[0];
      var rest := ns[1..];
      var next := Consider(grid, target, current, ci, closed, open, n);
      ConsiderProperties(grid, target, current, ci, closed, open, n);
      DiscoverProperties(grid, target, current, ci, closed, next, rest);
      var r := Discover(grid, target, current, ci, closed, next, rest);
      assert r[..|open|] == open by {
        assert r[..|next|][..|open|] == next[..|open|];
      }
      forall j | |open| <= j < |r|
        ensures r[j].parent == ci && Extends(grid, r[j], current) && !InOpen(open, r[j].pos)
      {
        if j >= |next| && InOpen(open, r[j].pos) {
          InOpenPrefix(open, next, r[j].pos);
        }
      }
      if !IsObstacle(grid, n) && n !in closed {
        InOpenPrefix(next, r, n);
      }
      forall i | 0 <= i < |ns| && !IsObstacle(grid, ns[i]) && ns[i] !in closed
        ensures InOpen(r, ns[i])
      {
        if i > 0 {
          assert ns[i] == rest[i - 1];
        }
      }
    }
  }

  /** The closed nodes: index 0 is the start node, every other node extends an earlier one. */
  ghost predicate ValidArena(grid: ObstacleGrid, start: Cell, target: Cell, nodes: seq<Node>)
  {
    (|nodes| > 0 ==> nodes[0] == StartNode(start, target)) &&
    ParentsEarlier(nodes) &&
    (forall i :: 0 < i < |nodes| ==> LinkedBack(grid, target, nodes, i)) &&
    DistinctPositions(nodes)
  }

  /** Node `i` of the arena extends the earlier node its parent index names. */
  predicate LinkedBack(grid: ObstacleGrid, target: Cell, nodes: seq<Node>, i: int)
  {
    0 <= i < |nodes| && 0 <= nodes[i].parent < i && Extends(grid, nodes[i], nodes[nodes[i].parent])
  }

  /** An open node extends the closed node its parent index names. */
  predicate LinkedInto(grid: ObstacleGrid, target: Cell, nodes: seq<Node>, n: Node)
  {
    0 <= n.parent < |nodes| && Extends(grid, n, nodes[n.parent])
  }

  predicate ParentsEarlier(nodes: seq<Node>)
  {
    forall i :: 0 < i < |nodes| ==> 0 <= nodes[i].parent < i
  }

  /** The cells from the start node (excluded) to node `i` (included), following parents. */
  ghost function Chain(nodes: seq<Node>, i: nat): seq<Cell>
    requires ParentsEarlier(nodes) && i < |nodes|
    decreases i
  {
    if i == 0 then [] else Chain(nodes, nodes[i].parent) + [nodes[i].pos]
  }

  function Reversed<T>(s: seq<T>): (r: seq<T>)
    ensures |r| == |s|
    ensures forall i :: 0 <= i < |s| ==> r[i] == s[|s| - 1 - i]
  {
    if s == [] then [] else [s[|s| - 1]] + Reversed(s[..|s| - 1])
  }

  /**
   * RetracePath (EnemyAI.cs:133-146): collect positions from `end` back to the
   * start node (excluded), then reverse them.
   */
  method RetracePath(nodes: seq<Node>, end: nat) returns (path: seq<Cell>)
    requires end < |nodes| && ParentsEarlier(nodes)
    ensures path == Chain(nodes, end)
  {
    var collected: seq<Cell> := [];
    var current: nat := end;
    while current != 0
      invariant current <= end
      invariant Chain(nodes, current) + Reversed(collected) == Chain(nodes, end)
      decreases current
    {
      var p := nodes[current].parent;
      assert Reversed(collected + [nodes[current].pos]) == [nodes[current].pos] + Reversed(collected);
      collected := collected + [nodes[current].pos];
      current := p;
    }
    path := Reversed(collected);
  }

  /** A walk from `start` (excluded): each cell free and 4-adjacent to the one before. */
  ghost predicate IsWalk(grid: ObstacleGrid, start: Cell, p: seq<Cell>)
  {
    (forall i :: 0 <= i < |p| ==> !IsObstacle(grid, p[i])) &&
    (|p| > 0 ==> Adjacent(start, p[0])) &&
    (forall i :: 0 <= i < |p| - 1 ==> Adjacent(p[i], p[i + 1]))
  }

  function EndOf(start: Cell, p: seq<Cell>): Cell
  {
    if p == [] then start else p[|p| - 1]
  }

  ghost predicate Reachable(grid: ObstacleGrid, start: Cell, target: Cell)
  {
    exists p :: IsWalk(grid, start, p) && EndOf(start, p) == target
  }

  predicate DistinctCells(p: seq<Cell>)
  {
    forall i, j :: 0 <= i < j < |p| ==> p[i] != p[j]
  }

  /**
   * A path as FindPath returns it: a walk from `start` (excluded) to `target`
   * (included) that never repeats a cell, empty exactly when they coincide.
   */
  ghost predicate PathTo(grid: ObstacleGrid, start: Cell, target: Cell, p: seq<Cell>)
  {
    IsWalk(grid, start, p) && EndOf(start, p) == target && start !in p && DistinctCells(p) &&
    (p == [] <==> start == target)
  }

  /** Positions of nodes closed after `i` never occur on the chain to `i`. */
  lemma {:induction false} ChainAvoidsLater(grid: ObstacleGrid, start: Cell, target: Cell, nodes: seq<Node>, i: nat)
    requires ValidArena(grid, start, target, nodes) && i < |nodes|
    ensures forall j :: i < j < |nodes| ==> nodes[j].pos !in Chain(nodes, i)
    decreases i
  {
    if i > 0 {
      ChainAvoidsLater(grid, start, target, nodes, nodes[i].parent);
      forall j | i < j < |nodes| ensures nodes[j].pos != nodes[i].pos {
        assert Apart(nodes, i, j);
      }
    }
  }

  /**
   * The chain to a closed node is a walk from the start that ends on the node,
   * never revisits a cell nor the start, and has as many cells as the node's gCost.
   */
  lemma {:induction false} ChainIsWalk(grid: ObstacleGrid, start: Cell, target: Cell, nodes: seq<Node>, i: nat)
    requires ValidArena(grid, start, target, nodes) && i < |nodes|
    ensures var p := Chain(nodes, i);
      IsWalk(grid, start, p) && EndOf(start, p) == nodes[i].pos &&
      |p| == nodes[i].gCost && start !in p && DistinctCells(p)
    decreases i
  {
    if i > 0 {
      var q := nodes[i].parent;
      assert LinkedBack(grid, target, nodes, i);
      ChainIsWalk(grid, start, target, nodes, q);
      ChainAvoidsLater(grid, start, target, nodes, q);
      var p := Chain(nodes, i);
      assert p == Chain(nodes, q) + [nodes[i].pos];
      assert Apart(nodes, 0, i);
    }
  }

  /** Number of in-bounds cells among the first `n` in mask order that are not in `s`. */
  function Unseen(s: set<Cell>, n: nat): (u: nat)
    requires n <= CellCount
    ensures u <= n
  {
    if n == 0 then 0 else Unseen(s, n - 1) + (if CellAt(n - 1) in s then 0 else 1)
  }

  lemma {:induction false} UnseenEmpty(n: nat)
    requires n <= CellCount
    ensures Unseen({}, n) == n
  {
    if n > 0 {
      UnseenEmpty(n - 1);
    }
  }

  /** Adding a new cell removes one unseen cell if it is in bounds, none otherwise. */
  lemma {:induction false} UnseenAdd(s: set<Cell>, c: Cell, n: nat)
    requires n <= CellCount && c !in s
    ensures Unseen(s + {c}, n) == Unseen(s, n) - (if InBounds(c) && Index(c) < n then 1 else 0)
  {
    if n > 0 {
      UnseenAdd(s, c, n - 1);
      CellAtRoundTrip(n - 1);
      if InBounds(c) {
        IndexRoundTrip(c);
      }
    }
  }

  /** The closed set is closed under free steps: each free neighbour of a closed cell is closed or open. */
  ghost predicate ClosedUnderSteps(grid: ObstacleGrid, closed: set<Cell>, open: seq<Node>)
  {
    forall c, m :: StepCovered(grid, closed, open, c, m)
  }

  /** A free step from the closed cell `c` to `m` lands on a closed or an open cell. */
  predicate StepCovered(grid: ObstacleGrid, closed: set<Cell>, open: seq<Node>, c: Cell, m: Cell)
  {
    c in closed && Adjacent(c, m) && !IsObstacle(grid, m) ==> m in closed || InOpen(open, m)
  }

  /** Once nothing is open, every walk from a closed start stays in the closed set. */
  lemma {:induction false} WalkStaysClosed(grid: ObstacleGrid, start: Cell, closed: set<Cell>, p: seq<Cell>)
    requires start in closed && ClosedUnderSteps(grid, closed, []) && IsWalk(grid, start, p)
    ensures EndOf(start, p) in closed
    decreases |p|
  {
    if p != [] {
      var q := p[..|p| - 1];
      assert IsWalk(grid, start, q);
      WalkStaysClosed(grid, start, closed, q);
      assert Adjacent(EndOf(start, q), p[|p| - 1]);
      assert StepCovered(grid, closed, [], EndOf(start, q), p[|p| - 1]);
    }
  }

  lemma RemoveAtKeeps(open: seq<Node>, k: nat, c: Cell)
    requires k < |open| && InOpen(open, c) && c != open[k].pos
    ensures InOpen(open[..k] + open[k + 1..], c)
  {
    var j :| 0 <= j < |open| && open[j].pos == c;
    var rest := open[..k] + open[k + 1..];
    if j < k {
      assert rest[j] == open[j];
    } else {
      assert rest[j - 1] == open[j];
    }
  }

  /** The bookkeeping of the search between two rounds. */
  ghost predicate SearchInvariant(grid: ObstacleGrid, start: Cell, target: Cell,
                                  nodes: seq<Node>, closed: set<Cell>, open: seq<Node>)
  {
    ValidArena(grid, start, target, nodes) &&
    (|nodes| == 0 ==> open == [StartNode(start, target)] && closed == {}) &&
    (|nodes| > 0 ==> start in closed) &&
    (|nodes| > 0 ==> forall j {:trigger LinkedInto(grid, target, nodes, open[j])} ::
       0 <= j < |open| ==> LinkedInto(grid, target, nodes, open[j])) &&
    DistinctPositions(open) &&
    (forall j :: 0 <= j < |open| ==> open[j].pos !in closed) &&
    (forall i :: 0 <= i < |nodes| ==> nodes[i].pos in closed) &&
    ClosedUnderSteps(grid, closed, open)
  }

  /** Closing the selected node keeps the arena valid. */
  lemma CloseKeepsArena(grid: ObstacleGrid, start: Cell, target: Cell,
                        nodes: seq<Node>, closed: set<Cell>, open: seq<Node>, k: nat)
    requires SearchInvariant(grid, start, target, nodes, closed, open) && k < |open|
    ensures ValidArena(grid, start, target, nodes + [open[k]])
    ensures open[k].pos !in closed
    ensures |nodes| == 0 ==> open[k].pos == start
    ensures |nodes| > 0 ==> InBounds(open[k].pos)
  {
    var nodes' := nodes + [open[k]];
    if |nodes| == 0 {
      assert nodes' == [StartNode(start, target)];
    } else {
      assert LinkedInto(grid, target, nodes, open[k]);
      forall i | 0 < i < |nodes'|
        ensures 0 <= nodes'[i].parent < i && LinkedBack(grid, target, nodes', i)
      {
        if i < |nodes| {
          assert LinkedBack(grid, target, nodes, i);
          assert nodes'[i] == nodes[i] && nodes'[nodes[i].parent] == nodes[nodes[i].parent];
        } else {
          assert nodes'[i] == open[k] && nodes'[open[k].parent] == nodes[open[k].parent];
        }
      }
      forall i, j | 0 <= i < j < |nodes'| ensures Apart(nodes', i, j) {
        if j == |nodes| {
          assert nodes[i].pos in closed;
        } else {
          assert Apart(nodes, i, j) && nodes'[i] == nodes[i] && nodes'[j] == nodes[j];
        }
      }
    }
  }

  /** Removing the selected node leaves nodes that are neither closed nor at its position. */
  lemma RemoveSelected(grid: ObstacleGrid, start: Cell, target: Cell,
                       nodes: seq<Node>, closed: set<Cell>, open: seq<Node>, k: nat)
    requires SearchInvariant(grid, start, target, nodes, closed, open) && k < |open|
    ensures var remaining := open[..k] + open[k + 1..];
      var nodes' := nodes + [open[k]];
      DistinctPositions(remaining) &&
      (forall j :: 0 <= j < |remaining| ==> remaining[j].pos !in closed + {open[k].pos}) &&
      (forall j :: 0 <= j < |remaining| ==> LinkedInto(grid, target, nodes', remaining[j]))
  {
    var remaining := open[..k] + open[k + 1..];
    var nodes' := nodes + [open[k]];
    forall j | 0 <= j < |remaining|
      ensures remaining[j] == open[if j < k then j else j + 1]
    {
    }
    forall i, j | 0 <= i < j < |remaining| ensures Apart(remaining, i, j) {
      var i', j' := if i < k then i else i + 1, if j < k then j else j + 1;
      assert remaining[i] == open[i'] && remaining[j] == open[j'] && Apart(open, i', j');
    }
    forall j | 0 <= j < |remaining|
      ensures remaining[j].pos !in closed + {open[k].pos}
      ensures LinkedInto(grid, target, nodes', remaining[j])
    {
      var j' := if j < k then j else j + 1;
      assert remaining[j] == open[j'] && j' != k;
      assert if j' < k then Apart(open, j', k) else Apart(open, k, j');
      assert LinkedInto(grid, target, nodes, open[j']);
      assert nodes'[open[j'].parent] == nodes[open[j'].parent];
    }
  }

  /** One round of the search (close the selected node, expand it) keeps the bookkeeping. */
  lemma RoundKeepsInvariant(grid: ObstacleGrid, start: Cell, target: Cell,
                            nodes: seq<Node>, closed: set<Cell>, open: seq<Node>, k: nat, next: seq<Node>)
    requires SearchInvariant(grid, start, target, nodes, closed, open) && k < |open|
    requires next == Discover(grid, target, open[k], |nodes|, closed + {open[k].pos},
                              open[..k] + open[k + 1..], GetNeighbors(open[k].pos))
    ensures SearchInvariant(grid, start, target, nodes + [open[k]], closed + {open[k].pos}, next)
  {
    var current := open[k];
    var remaining := open[..k] + open[k + 1..];
    var nodes' := nodes + [current];
    var closed' := closed + {current.pos};
    var ns := GetNeighbors(current.pos);
    CloseKeepsArena(grid, start, target, nodes, closed, open, k);
    RemoveSelected(grid, start, target, nodes, closed, open, k);
    DiscoverProperties(grid, target, current, |nodes|, closed', remaining, ns);
    assert start in closed';
    assert forall i :: 0 <= i < |nodes'| ==> nodes'[i].pos in closed';
    forall j | 0 <= j < |next|
      ensures LinkedInto(grid, target, nodes', next[j])
    {
      if j < |remaining| {
        assert next[j] == remaining[j];
      } else {
        assert nodes'[|nodes|] == current;
      }
    }
    forall c, m ensures StepCovered(grid, closed', next, c, m) {
      if c in closed' && Adjacent(c, m) && !IsObstacle(grid, m) && m !in closed' {
        if c == current.pos {
          NeighborsExact(c);
          assert m in ns;
        } else {
          assert StepCovered(grid, closed, open, c, m);
          RemoveAtKeeps(open, k, m);
          InOpenPrefix(remaining, next, m);
        }
      }
    }
  }

  /**
   * The loop invariant of FindPath: the bookkeeping, the target not yet
   * closed, and the count of rounds plus the unseen cells held fixed (one
   * more when the start lies outside the grid).
   */
  ghost predicate Searching(grid: ObstacleGrid, start: Cell, target: Cell,
                            nodes: seq<Node>, closed: set<Cell>, open: seq<Node>)
  {
    SearchInvariant(grid, start, target, nodes, closed, open) && target !in closed &&
    |nodes| + Unseen(closed, CellCount) == CellCount + (if |nodes| > 0 && !InBounds(start) then 1 else 0)
  }

  /**
   * Closing the selected node takes one cell off the unseen count, except in
   * the first round, and leaves a valid arena; so the rounds never outnumber
   * the cells (plus the start, when it lies outside the grid).
   */
  lemma CloseCounts(grid: ObstacleGrid, start: Cell, target: Cell,
                    nodes: seq<Node>, closed: set<Cell>, open: seq<Node>, k: nat)
    requires Searching(grid, start, target, nodes, closed, open) && k < |open|
    ensures var closed' := closed + {open[k].pos};
      Unseen(closed', CellCount) <= Unseen(closed, CellCount) &&
      (Unseen(closed', CellCount) < Unseen(closed, CellCount) || |nodes| == 0)
    ensures |nodes| + 1 <= CellCount + 1 && (InBounds(start) ==> |nodes| + 1 <= CellCount)
    ensures ValidArena(grid, start, target, nodes + [open[k]])
  {
    CloseKeepsArena(grid, start, target, nodes, closed, open, k);
    UnseenAdd(closed, open[k].pos, CellCount);
    if InBounds(open[k].pos) {
      IndexRoundTrip(open[k].pos);
    }
  }

  /** A round that does not close the target keeps the loop invariant. */
  lemma NextRound(grid: ObstacleGrid, start: Cell, target: Cell,
                  nodes: seq<Node>, closed: set<Cell>, open: seq<Node>, k: nat, next: seq<Node>)
    requires Searching(grid, start, target, nodes, closed, open) && k < |open| && open[k].pos != target
    requires next == Discover(grid, target, open[k], |nodes|, closed + {open[k].pos},
                              open[..k] + open[k + 1..], GetNeighbors(open[k].pos))
    ensures Searching(grid, start, target, nodes + [open[k]], closed + {open[k].pos}, next)
  {
    CloseKeepsArena(grid, start, target, nodes, closed, open, k);
    UnseenAdd(closed, open[k].pos, CellCount);
    if InBounds(open[k].pos) {
      IndexRoundTrip(open[k].pos);
    }
    RoundKeepsInvariant(grid, start, target, nodes, closed, open, k, next);
  }

  /** The path retraced from a closed target is a simple walk to it, empty only when it starts there. */
  lemma FoundPath(grid: ObstacleGrid, start: Cell, target: Cell, nodes: seq<Node>, i: nat)
    requires ValidArena(grid, start, target, nodes) && i < |nodes| && nodes[i].pos == target
    ensures PathTo(grid, start, target, Chain(nodes, i))
    ensures Reachable(grid, start, target)
    ensures IsObstacle(grid, target) ==> start == target
  {
    ChainIsWalk(grid, start, target, nodes, i);
  }

  /** When the open list runs empty without closing the target, the target is unreachable. */
  lemma ExhaustedMeansUnreachable(grid: ObstacleGrid, start: Cell, target: Cell, nodes: seq<Node>, closed: set<Cell>)
    requires Searching(grid, start, target, nodes, closed, [])
    ensures !Reachable(grid, start, target)
  {
    forall p | IsWalk(grid, start, p) ensures EndOf(start, p) in closed {
      WalkStaysClosed(grid, start, closed, p);
    }
  }

  /** A blocked target other than the start ends no walk. */
  lemma BlockedTargetUnreachable(grid: ObstacleGrid, start: Cell, target: Cell)
    requires IsObstacle(grid, target) && start != target
    ensures !Reachable(grid, start, target)
  {
    forall p | IsWalk(grid, start, p) ensures EndOf(start, p) != target {
      if p != [] {
        assert !IsObstacle(grid, p[|p| - 1]);
      }
    }
  }

  /**
   * FindPath (EnemyAI.cs:40-97, PlayerUnit.cs:66-123). A returned path runs
   * from the start (excluded) to the target (included) through free cells,
   * each 4-adjacent to the one before, never repeating a cell; it is empty
   * exactly when start and target coincide. No path comes back exactly when
   * the target cannot be reached, in particular when it is blocked. `rounds`
   * counts the iterations of the search loop: at most one per grid cell.
   */
  method FindPath(grid: ObstacleGrid, start: Cell, target: Cell) returns (path: Option<seq<Cell>>, ghost rounds: nat)
    ensures path.Some? ==> PathTo(grid, start, target, path.value)
    ensures path.None? <==> !Reachable(grid, start, target)
    ensures IsObstacle(grid, target) && start != target ==> path.None?
    ensures rounds <= CellCount + 1 && (InBounds(start) ==> rounds <= CellCount)
  {
    var open := [StartNode(start, target)];
    var closed: set<Cell> := {};
    var nodes: seq<Node> := [];
    rounds := 0;
    UnseenEmpty(CellCount);
    while |open| > 0
      invariant Searching(grid, start, target, nodes, closed, open)
      invariant rounds == |nodes|
      decreases Unseen(closed, CellCount), if |nodes| == 0 then 1 else 0
    {
      var k := SelectCurrent(open);
      var current := open[k];
      ghost var nodes0, closed0, open0 := nodes, closed, open;
      CloseCounts(grid, start, target, nodes, closed, open, k);
      open := open[..k] + open[k + 1..];
      closed := closed + {current.pos};
      var ci := |nodes|;
      nodes := nodes + [current];
      rounds := rounds + 1;
      if current.pos == target {
        var p := RetracePath(nodes, ci);
        FoundPath(grid, start, target, nodes, ci);
        path := Some(p);
        return;
      }
      open := Expand(grid, target, current, ci, closed, open, GetNeighbors(current.pos));
      NextRound(grid, start, target, nodes0, closed0, open0, k, open);
    }
    path := None;
    ExhaustedMeansUnreachable(grid, start, target, nodes, closed);
    if IsObstacle(grid, target) && start != target {
      BlockedTargetUnreachable(grid, start, target);
    }
  }
}
