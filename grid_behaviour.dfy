/// GridBehaviour (GridBehaviour.cs): the rows x columns table of tiles, the
/// `visited` label every tile carries, and the two passes `Update` runs when
/// `findDistance` is set: SetDistance labels every tile with its distance from
/// the start, SetPath walks back from the end along decreasing labels.
///
/// The table is fixed once GenerateGrid has filled it, so the slots that hold
/// a tile are a constant set; what changes is each tile's `visited` label,
/// kept as a map from slot to label. A slot without a tile has no label.
module Pathfinding {
  import opened Grid
  import opened Wavefront

  /**
   * The squared distance between two slots. Tile (i, j) stands at
   * leftBottom + scale * (j, 0, i), so for scale > 0 this orders tiles as
   * Vector3.Distance does.
   */
  function SquaredDistance(a: Cell, b: Cell): (d: int)
    ensures d >= 0
    ensures d == 0 <==> a == b
    ensures Adjacent(a, b) ==> d == 1
  {
    var dx, dy := a.x - b.x, a.y - b.y;
    SquareSign(dx);
    SquareSign(dy);
    dx * dx + dy * dy
  }

  lemma SquareSign(u: int)
    ensures u * u >= 0 && (u * u == 0 <==> u == 0)
    ensures u == 1 || u == -1 ==> u * u == 1
  {
    if u > 0 {
      Monotone(1, u, u);
    } else if u < 0 {
      Monotone(1, -u, -u);
      assert u * u == (-u) * (-u);
    }
  }

  /** `list[i]` is nearest to `target`, and strictly nearer than every element before it. */
  predicate FirstNearest(target: Cell, list: seq<Cell>, i: int)
  {
    0 <= i < |list| &&
    (forall j :: 0 <= j < |list| ==> SquaredDistance(target, list[i]) <= SquaredDistance(target, list[j])) &&
    (forall j :: 0 <= j < i ==> SquaredDistance(target, list[i]) < SquaredDistance(target, list[j]))
  }

  /** Some element lies nearer to `target` than the starting threshold `limit`. */
  predicate SomeUnder(target: Cell, list: seq<Cell>, limit: int)
  {
    exists j :: 0 <= j < |list| && SquaredDistance(target, list[j]) < limit
  }

  /**
   * FindClosest's starting threshold scale * rows * columns, squared and in
   * slot units, lies beyond every pair of slots of the table.
   */
  lemma SlotsUnderLimit(rows: nat, columns: nat, a: Cell, b: Cell)
    requires InGrid(rows, columns, a) && InGrid(rows, columns, b)
    ensures SquaredDistance(a, b) < (rows * columns) * (rows * columns)
  {
    GridDiameter(rows, columns, a, b);
    SquareOfAbs(a.x - b.x);
    SquareOfAbs(a.y - b.y);
    SumOfSquares(Abs(a.x - b.x), Abs(a.y - b.y), rows * columns);
  }

  lemma SquareOfAbs(u: int)
    ensures u * u == Abs(u) * Abs(u)
  {
    if u < 0 {
      assert u * u == (-u) * (-u);
    }
  }

  lemma SumOfSquares(dx: nat, dy: nat, n: int)
    requires dx + dy < n
    ensures dx * dx + dy * dy < n * n
  {
    var s := dx + dy;
    assert s * s == dx * dx + 2 * (dx * dy) + dy * dy;
    assert dx * dy >= 0;
    Monotone(s, n - 1, s);
    Monotone(s, n - 1, n - 1);
    assert (n - 1) * (n - 1) == n * n - 2 * n + 1;
  }

  lemma Monotone(a: int, b: int, c: nat)
    requires a <= b
    ensures a * c <= b * c
  {
  }

  /**
   * The tiles around `c` labelled `level`, in the order SetPath collects them
   * into its temporary list: directions 1, 2, 3, 4.
   */
  function Candidates(L: Labels, c: Cell, level: int): (cs: seq<Cell>)
    ensures |cs| <= 4
    ensures forall n :: n in cs ==> Adjacent(c, n) && HasLabel(L, n, level)
    ensures |cs| > 0 <==> Fed(L, c, level)
  {
    (if HasLabel(L, Toward(c, 1), level) then [Toward(c, 1)] else []) +
    (if HasLabel(L, Toward(c, 2), level) then [Toward(c, 2)] else []) +
    (if HasLabel(L, Toward(c, 3), level) then [Toward(c, 3)] else []) +
    (if HasLabel(L, Toward(c, 4), level) then [Toward(c, 4)] else [])
  }

  /** The index of the first element of `list` nearest to `target`. */
  function Closest(target: Cell, list: seq<Cell>): (i: nat)
    requires |list| > 0
    ensures FirstNearest(target, list, i)
    decreases |list|
  {
    if |list| == 1 then 0
    else
      var i := Closest(target, list[..|list| - 1]);
      if SquaredDistance(target, list[|list| - 1]) < SquaredDistance(target, list[i]) then |list| - 1 else i
  }

  /** Only one index is the first nearest. */
  lemma NearestUnique(target: Cell, list: seq<Cell>, i: int, j: int)
    requires FirstNearest(target, list, i) && FirstNearest(target, list, j)
    ensures i == j
  {
    var di, dj := SquaredDistance(target, list[i]), SquaredDistance(target, list[j]);
    assert i < j ==> dj < di;
    assert j < i ==> di < dj;
  }

  /**
   * The tiles SetPath appends after `c`, the tile labelled `step + 1`: the
   * candidate labelled `step` nearest the end, then the tiles after it, down
   * to label 0.
   */
  function TraceFrom(L: Labels, end: Cell, c: Cell, step: int): (t: seq<Cell>)
    ensures |t| <= if step < 0 then 0 else step + 1
    decreases step + 1
  {
    if step < 0 then []
    else
      var cs := Candidates(L, c, step);
      if |cs| == 0 then []
      else
        var n := cs[Closest(end, cs)];
        [n] + TraceFrom(L, end, n, step - 1)
  }

  /** The path SetPath builds from labels `L`. */
  function Route(L: Labels, end: Cell): (r: seq<Cell>)
    ensures r != [] <==> end in L && L[end] > 0
    ensures r != [] ==> r[0] == end && |r| <= L[end] + 1
  {
    if end in L && L[end] > 0 then [end] + TraceFrom(L, end, end, L[end] - 1) else []
  }

  /** SetPath steps from `c` to `n`: the tile labelled one less that lies nearest the end. */
  predicate StepBack(L: Labels, end: Cell, c: Cell, n: Cell)
  {
    c in L &&
    var cs := Candidates(L, c, L[c] - 1);
    |cs| > 0 && n == cs[Closest(end, cs)]
  }

  /**
   * What the path SetPath leaves promises for labels `L`: empty when the end
   * is missing or labelled 0 or less; otherwise it runs from the end to the
   * start, one tile per label from the end's label down to 0, each tile
   * 4-adjacent to the one before and the one nearest the end among the tiles
   * with its label.
   */
  ghost predicate RoutedBack(L: Labels, start: Cell, end: Cell, p: seq<Cell>)
  {
    if end in L && L[end] > 0 then
      |p| == L[end] + 1 && p[0] == end && p[|p| - 1] == start &&
      (forall k :: 0 <= k < |p| ==> HasLabel(L, p[k], L[end] - k)) &&
      (forall k :: 0 <= k < |p| - 1 ==> Adjacent(p[k], p[k + 1]) && StepBack(L, end, p[k], p[k + 1]))
    else
      p == []
  }

  /**
   * `p` descends from label `top` to the start: one tile per label, each
   * adjacent to the one before and the nearest candidate from it.
   */
  predicate Descending(L: Labels, start: Cell, end: Cell, p: seq<Cell>, top: int)
  {
    |p| == top + 1 && |p| > 0 && p[|p| - 1] == start &&
    (forall k :: 0 <= k < |p| ==> HasLabel(L, p[k], top - k)) &&
    (forall k :: 0 <= k < |p| - 1 ==> Adjacent(p[k], p[k + 1]) && StepBack(L, end, p[k], p[k + 1]))
  }

  /** From a tile labelled `step + 1`, the trace on layered labels descends one label per tile to the start. */
  lemma {:induction false} TraceDescends(L: Labels, start: Cell, end: Cell, c: Cell, step: int)
    requires Layered(L, start) && step >= -1 && HasLabel(L, c, step + 1)
    ensures Descending(L, start, end, [c] + TraceFrom(L, end, c, step), step + 1)
    decreases step + 1
  {
    if step >= 0 {
      var cs := Candidates(L, c, step);
      assert |cs| > 0;
      var n := cs[Closest(end, cs)];
      assert n in cs;
      TraceDescends(L, start, end, n, step - 1);
      var q := [n] + TraceFrom(L, end, n, step - 1);
      assert TraceFrom(L, end, c, step) == q;
      DescendsCons(L, start, end, c, q, step);
    } else {
      assert [c] + TraceFrom(L, end, c, step) == [c];
    }
  }

  /** One more tile in front of a descending trace, one label above and stepping back to it. */
  lemma DescendsCons(L: Labels, start: Cell, end: Cell, c: Cell, q: seq<Cell>, step: int)
    requires step >= 0 && HasLabel(L, c, step + 1) && |q| > 0
    requires Adjacent(c, q[0]) && StepBack(L, end, c, q[0])
    requires Descending(L, start, end, q, step)
    ensures Descending(L, start, end, [c] + q, step + 1)
  {
    var p := [c] + q;
    forall k | 0 <= k < |p| ensures HasLabel(L, p[k], step + 1 - k) {
      if k > 0 {
        assert p[k] == q[k - 1];
      }
    }
    forall k | 0 <= k < |p| - 1 ensures Adjacent(p[k], p[k + 1]) && StepBack(L, end, p[k], p[k + 1]) {
      if k > 0 {
        assert p[k] == q[k - 1] && p[k + 1] == q[k];
      }
    }
  }

  /** On layered labels a tile labelled `step + 1` has a neighbour labelled `step`. */
  lemma TraceHasCandidates(L: Labels, start: Cell, c: Cell, step: int)
    requires Layered(L, start) && step >= 0 && HasLabel(L, c, step + 1)
    ensures |Candidates(L, c, step)| > 0
  {
  }

  /** One round of SetPath's loop moves the trace to the first nearest candidate. */
  lemma TraceStep(L: Labels, end: Cell, c: Cell, step: int, cs: seq<Cell>, index: int)
    requires step >= 0 && cs == Candidates(L, c, step) && FirstNearest(end, cs, index)
    ensures HasLabel(L, cs[index], step)
    ensures TraceFrom(L, end, c, step) == [cs[index]] + TraceFrom(L, end, cs[index], step - 1)
  {
    NearestUnique(end, cs, index, Closest(end, cs));
    assert cs[index] in cs;
  }

  /** SetPath's first entry is the end tile; the trace from it makes up the rest of the route. */
  lemma RouteEntry(L: Labels, end: Cell, c: Cell, step: int, p: seq<Cell>)
    requires end in L && L[end] > 0 && c == end && step == L[end] - 1 && p == [end]
    ensures p + TraceFrom(L, end, c, step) == Route(L, end)
  {
  }

  /** Appending one tile to the path moves it from the trace to the path. */
  lemma Appended(p: seq<Cell>, n: Cell, rest: seq<Cell>, whole: seq<Cell>)
    requires p + ([n] + rest) == whole
    ensures (p + [n]) + rest == whole
  {
    assert (p + [n]) + rest == p + ([n] + rest);
  }

  /** The candidates SetPath collects from its four direction tests. */
  lemma Collected(L: Labels, x: int, y: int, step: int, t1: bool, t2: bool, t3: bool, t4: bool, cs: seq<Cell>)
    requires t1 == HasLabel(L, Toward(Cell(x, y), 1), step) && t2 == HasLabel(L, Toward(Cell(x, y), 2), step)
    requires t3 == HasLabel(L, Toward(Cell(x, y), 3), step) && t4 == HasLabel(L, Toward(Cell(x, y), 4), step)
    requires cs == (if t1 then [Cell(x, y + 1)] else []) + (if t2 then [Cell(x, y - 1)] else []) +
                   (if t3 then [Cell(x + 1, y)] else []) + (if t4 then [Cell(x - 1, y)] else [])
    ensures cs == Candidates(L, Cell(x, y), step)
  {
  }

  /** On layered labels, the path SetPath builds keeps every promise of RoutedBack. */
  lemma RouteTracesBack(L: Labels, start: Cell, end: Cell)
    requires Layered(L, start)
    ensures RoutedBack(L, start, end, Route(L, end))
  {
    if end in L && L[end] > 0 {
      TraceDescends(L, start, end, end, L[end] - 1);
    }
  }

  /**
   * After SetDistance, the path SetPath builds is empty exactly when the end
   * is the start or no walk through present tiles reaches it; otherwise its
   * step count is that of a shortest walk from the start to the end.
   */
  lemma RouteIsShortest(rows: nat, columns: nat, tiles: set<Cell>, start: Cell, end: Cell, L: Labels)
    requires TilesInGrid(rows, columns, tiles) && rows * columns > 0
    requires L == Labelled(tiles, start, rows * columns - 1)
    ensures RoutedBack(L, start, end, Route(L, end))
    ensures Route(L, end) == [] <==> end !in tiles || end == start || !Connected(tiles, start, end)
    ensures Route(L, end) != [] ==> Shortest(tiles, start, end, |Route(L, end)| - 1)
  {
    LabelledIsLayered(L, tiles, start, rows * columns - 1);
    RouteTracesBack(L, start, end);
    if end in tiles {
      RoutedIsShortest(rows, columns, tiles, start, end, Route(L, end));
    }
  }


  /** The same for any path that keeps RoutedBack's promises, with the end present. */
  lemma RoutedIsShortest(rows: nat, columns: nat, tiles: set<Cell>, start: Cell, end: Cell, p: seq<Cell>)
    requires TilesInGrid(rows, columns, tiles) && rows * columns > 0 && end in tiles
    requires RoutedBack(Labelled(tiles, start, rows * columns - 1), start, end, p)
    ensures p == [] <==> end == start || !Connected(tiles, start, end)
    ensures p != [] ==> Shortest(tiles, start, end, |p| - 1)
  {
    var N := rows * columns - 1;
    LabelsAreDistances(rows, columns, tiles, start, end);
    if end == start {
      DepthExact(tiles, start, end, 0, N);
    }
    if InLayer(tiles, start, N, end) && Depth(tiles, start, end, N) == 0 {
      assert end == start;
    }
  }



  /**
   * The labels after InitializeGrid has visited the slots before (i, j) in
   * row-major order: those tiles hold -1, the rest what they held.
   */
  function ResetBefore(L: Labels, i: int, j: int): (r: Labels)
    ensures r.Keys == L.Keys
    ensures forall c :: c in L ==> r[c] == if Before(c, i, j) then -1 else L[c]
  {
    map c | c in L :: if Before(c, i, j) then -1 else L[c]
  }

  /** (ni, nj) is the slot after (i, j) in the row-major order of a rows x columns table. */
  predicate NextSlot(columns: int, i: int, j: int, ni: int, nj: int)
  {
    if j + 1 < columns then ni == i && nj == j + 1 else ni == i + 1 && nj == 0
  }

  /** Of the table's slots, those before the next slot are those before (i, j) and (i, j) itself. */
  lemma SlotAdvance(rows: nat, columns: nat, i: int, j: int, ni: int, nj: int, c: Cell)
    requires 0 <= j < columns && NextSlot(columns, i, j, ni, nj) && InGrid(rows, columns, c)
    ensures Before(c, ni, nj) <==> Before(c, i, j) || c == Cell(i, j)
  {
  }

  /** Visiting slot (i, j) moves InitializeGrid on to the next slot (ni, nj). */
  lemma ResetAdvance(rows: nat, columns: nat, L: Labels, i: int, j: int,
                     before: Labels, after: Labels, ni: int, nj: int)
    requires TilesInGrid(rows, columns, L.Keys) && 0 <= j < columns && NextSlot(columns, i, j, ni, nj)
    requires before == ResetBefore(L, i, j)
    requires after == if Cell(i, j) in L then before[Cell(i, j) := -1] else before
    ensures after == ResetBefore(L, ni, nj)
  {
    forall c | c in L ensures after[c] == ResetBefore(L, ni, nj)[c] {
      SlotAdvance(rows, columns, i, j, ni, nj, c);
    }
  }

  /** With every slot visited and the start set to 0, the labels are those of no pass at all. */
  lemma {:induction false} ResetEnd(rows: nat, columns: nat, tiles: set<Cell>, start: Cell, L: Labels)
    requires TilesInGrid(rows, columns, tiles) && L.Keys == tiles
    ensures (if start in tiles then ResetBefore(L, rows, 0)[start := 0] else ResetBefore(L, rows, 0))
            == Labelled(tiles, start, 0)
  {
    LabelledZero(tiles, start);
    assert forall c :: c in L ==> InGrid(rows, columns, c);
  }

  /**
   * Visiting slot (i, j) moves the sweep on to (ni, nj), the next slot in
   * row-major order.
   */
  lemma SweepAdvance(rows: nat, columns: nat, L: Labels, step: int, i: int, j: int,
                     before: Labels, after: Labels, ni: int, nj: int)
    requires step >= 1 && TilesInGrid(rows, columns, L.Keys) && 0 <= j < columns
    requires before == Sweep(L, step, i, j)
    requires after == if Cell(i, j) in L && before[Cell(i, j)] == step - 1 then Spread(before, Cell(i, j), step) else before
    requires NextSlot(columns, i, j, ni, nj)
    ensures after == Sweep(L, step, ni, nj)
  {
    SweepStep(L, step, i, j);
    if j + 1 == columns {
      SweepNextRow(rows, columns, L, step, i);
    }
  }

  /** One test-and-set of TestAllDirections is a Mark. */
  lemma MarkStep(before: Labels, after: Labels, n: Cell, step: int)
    requires after == if HasLabel(before, n, -1) then before[n := step] else before
    ensures after == Mark(before, n, step)
  {
  }

  /**
   * `m` is the first slot, in the row-major order of `foreach` over
   * `gridArray`, that holds no tile.
   */
  ghost predicate FirstMissing(rows: int, columns: int, tiles: set<Cell>, m: Cell)
  {
    InGrid(rows, columns, m) && m !in tiles &&
    forall c :: InGrid(rows, columns, c) && Before(c, m.x, m.y) ==> c in tiles
  }

  class GridBehaviour {
    const rows: nat
    const columns: nat
    /** The slots of `gridArray` that hold a tile. */
    const tiles: set<Cell>
    /** (startX, startY) and (endX, endY). */
    const start: Cell
    const end: Cell
    /** The `visited` label of each tile's GridStat. */
    var visited: Labels
    var path: seq<Cell>
    var findDistance: bool

    ghost predicate Valid()
      reads this
    {
      TilesInGrid(rows, columns, tiles) && InGrid(rows, columns, start) && InGrid(rows, columns, end) &&
      rows * columns > 0 && visited.Keys == tiles
    }

    /** A table GenerateGrid has filled; `labels` are whatever the tiles carry. */
    constructor (rows: nat, columns: nat, tiles: set<Cell>, start: Cell, end: Cell, labels: Labels)
      requires TilesInGrid(rows, columns, tiles) && InGrid(rows, columns, start) && InGrid(rows, columns, end)
      requires labels.Keys == tiles
      ensures Valid()
      ensures this.rows == rows && this.columns == columns && this.tiles == tiles
      ensures this.start == start && this.end == end
      ensures visited == labels && path == [] && !findDistance
    {
      this.rows := rows;
      this.columns := columns;
      this.tiles := tiles;
      this.start := start;
      this.end := end;
      visited := labels;
      path := [];
      findDistance := false;
      GridDiameter(rows, columns, start, start);
    }

    /**
     * The tile in `direction` from (x, y) exists and is labelled `step`:
     * 1 is y + 1, 2 is y - 1, 3 is x + 1, 4 is x - 1, anything else fails.
     * The table index is bounds-checked only along the direction tested; an
     * (x, y) off the table would throw IndexOutOfRange, but every caller passes
     * a tile of the table, and there a missing slot and a failed test agree.
     */
    predicate TestDirection(x: int, y: int, step: int, direction: int)
      reads this
      requires Valid()
      ensures TestDirection(x, y, step, direction) <==>
        1 <= direction <= 4 && HasLabel(visited, Toward(Cell(x, y), direction), step)
    {
      if direction == 1 then
        y + 1 < columns && Cell(x, y + 1) in tiles && visited[Cell(x, y + 1)] == step
      else if direction == 2 then
        y - 1 > -1 && Cell(x, y - 1) in tiles && visited[Cell(x, y - 1)] == step
      else if direction == 3 then
        x + 1 < rows && Cell(x + 1, y) in tiles && visited[Cell(x + 1, y)] == step
      else if direction == 4 then
        x - 1 > -1 && Cell(x - 1, y) in tiles && visited[Cell(x - 1, y)] == step
      else
        false
    }

    /**
     * Labels the tile at (x, y) with `step`; a missing slot is left alone.
     * Every caller passes a slot of the table, so the IndexOutOfRange an
     * off-table (x, y) would raise is not modelled.
     */
    method SetVisited(x: int, y: int, step: int)
      requires Valid()
      modifies this
      ensures Valid() && path == old(path) && findDistance == old(findDistance)
      ensures visited == if Cell(x, y) in tiles then old(visited)[Cell(x, y) := step] else old(visited)
    {
      if Cell(x, y) in tiles {
        visited := visited[Cell(x, y) := step];
      }
    }

    /** Labels every unlabelled tile next to (x, y) with `step`. */
    method TestAllDirections(x: int, y: int, step: int)
      requires Valid()
      modifies this
      ensures Valid() && path == old(path) && findDistance == old(findDistance)
      ensures visited == Spread(old(visited), Cell(x, y), step)
    {
      var d := Cell(x, y);
      ghost var L0 := visited;
      if TestDirection(x, y, -1, 1) {
        SetVisited(x, y + 1, step);
      }
      ghost var L1 := visited;
      MarkStep(L0, L1, Toward(d, 1), step);
      if TestDirection(x, y, -1, 2) {
        SetVisited(x, y - 1, step);
      }
      ghost var L2 := visited;
      MarkStep(L1, L2, Toward(d, 2), step);
      if TestDirection(x, y, -1, 3) {
        SetVisited(x + 1, y, step);
      }
      ghost var L3 := visited;
      MarkStep(L2, L3, Toward(d, 3), step);
      if TestDirection(x, y, -1, 4) {
        SetVisited(x - 1, y, step);
      }
      MarkStep(L3, visited, Toward(d, 4), step);
      MarksSpread(L0, d, step);
    }

    /**
     * InitializeGrid as written: it dereferences every slot, so the first
     * slot without a tile throws, after the tiles before it were set to -1.
     */
    method InitializeGridAsWritten() returns (thrown: bool)
      requires Valid()
      modifies this
      ensures Valid() && path == old(path) && findDistance == old(findDistance)
      ensures thrown <==> !Full(rows, columns, tiles)
      ensures thrown ==> exists m :: FirstMissing(rows, columns, tiles, m) &&
                                     visited == ResetBefore(old(visited), m.x, m.y)
      ensures !thrown ==> visited == Labelled(tiles, start, 0)
    {
      ghost var L := visited;
      var i, j := 0, 0;
      while i < rows
        invariant 0 <= i <= rows && 0 <= j < columns && (i == rows ==> j == 0)
        invariant Valid() && path == old(path) && findDistance == old(findDistance)
        invariant visited == ResetBefore(L, i, j)
        invariant forall c :: InGrid(rows, columns, c) && Before(c, i, j) ==> c in tiles
        decreases rows - i, columns - j
      {
        if Cell(i, j) !in tiles {
          assert FirstMissing(rows, columns, tiles, Cell(i, j));
          return true;
        }
        ghost var before := visited;
        visited := visited[Cell(i, j) := -1];
        ghost var i0, j0, after := i, j, visited;
        if j + 1 < columns {
          j := j + 1;
        } else {
          i, j := i + 1, 0;
        }
        ResetAdvance(rows, columns, L, i0, j0, before, after, i, j);
        forall c | InGrid(rows, columns, c) && Before(c, i, j) ensures c in tiles {
          SlotAdvance(rows, columns, i0, j0, i, j, c);
        }
      }
      assert forall c :: InGrid(rows, columns, c) ==> Before(c, rows, 0);
      ResetEnd(rows, columns, tiles, start, L);
      visited := visited[start := 0];
      thrown := false;
    }

    /**
     * InitializeGrid with missing slots skipped, as SetVisited and
     * TestDirection treat them: every tile -1, the start tile 0.
     */
    method InitializeGrid()
      requires Valid()
      modifies this
      ensures Valid() && path == old(path) && findDistance == old(findDistance)
      ensures visited == Labelled(tiles, start, 0)
    {
      ghost var L := visited;
      var i, j := 0, 0;
      while i < rows
        invariant 0 <= i <= rows && 0 <= j < columns && (i == rows ==> j == 0)
        invariant Valid() && path == old(path) && findDistance == old(findDistance)
        invariant visited == ResetBefore(L, i, j)
        decreases rows - i, columns - j
      {
        ghost var before := visited;
        if Cell(i, j) in tiles {
          visited := visited[Cell(i, j) := -1];
        }
        ghost var i0, j0, after := i, j, visited;
        if j + 1 < columns {
          j := j + 1;
        } else {
          i, j := i + 1, 0;
        }
        ResetAdvance(rows, columns, L, i0, j0, before, after, i, j);
      }
      ResetEnd(rows, columns, tiles, start, L);
      if start in tiles {
        visited := visited[start := 0];
      }
    }

    /**
     * rows x columns - 1 passes over the table, pass `step` labelling the
     * unlabelled tiles next to a tile labelled `step - 1`. The labels end as
     * the layers of Labelled: see LabelsAreDistances for what they mean.
     */
    method SetDistance()
      requires Valid()
      modifies this
      ensures Valid() && path == old(path) && findDistance == old(findDistance)
      ensures visited == Labelled(tiles, start, rows * columns - 1)
    {
      InitializeGrid();
      for step := 1 to rows * columns
        invariant Valid() && path == old(path) && findDistance == old(findDistance)
        invariant visited == Labelled(tiles, start, step - 1)
      {
        VisitAll(step);
        PassAdvances(tiles, start, step);
      }
    }

    /**
     * The `foreach` over `gridArray` inside SetDistance's loop: every tile
     * labelled `step - 1` when visited spreads `step` to its unlabelled
     * neighbours.
     */
    method VisitAll(step: int)
      requires Valid() && step >= 1
      modifies this
      ensures Valid() && path == old(path) && findDistance == old(findDistance)
      ensures visited == Pass(old(visited), step)
    {
      ghost var L := visited;
      SweepStart(rows, columns, L, step);
      var i, j := 0, 0;
      while i < rows
        invariant 0 <= i <= rows && 0 <= j < columns && (i == rows ==> j == 0)
        invariant Valid() && path == old(path) && findDistance == old(findDistance)
        invariant visited == Sweep(L, step, i, j)
        decreases rows - i, columns - j
      {
        ghost var before := visited;
        if Cell(i, j) in tiles && visited[Cell(i, j)] == step - 1 {
          TestAllDirections(i, j, step);
        }
        ghost var i0, j0, after := i, j, visited;
        if j + 1 < columns {
          j := j + 1;
        } else {
          i, j := i + 1, 0;
        }
        SweepAdvance(rows, columns, L, step, i0, j0, before, after, i, j);
      }
      SweepEnd(rows, columns, L, step);
    }

    /**
     * The index of the element of `list` nearest to `target`, the first one
     * on ties; index 0 when none lies under the starting threshold.
     */
    method FindClosest(target: Cell, list: seq<Cell>) returns (index: nat)
      requires |list| > 0
      ensures index < |list|
      ensures SomeUnder(target, list, (rows * columns) * (rows * columns)) ==> FirstNearest(target, list, index)
      ensures !SomeUnder(target, list, (rows * columns) * (rows * columns)) ==> index == 0
    {
      var limit := (rows * columns) * (rows * columns);
      var current := limit;
      index := 0;
      for i := 0 to |list|
        invariant index < |list|
        invariant SomeUnder(target, list[..i], limit) ==>
          index < i && current == SquaredDistance(target, list[index]) &&
          (forall j :: 0 <= j < i ==> current <= SquaredDistance(target, list[j])) &&
          (forall j :: 0 <= j < index ==> current < SquaredDistance(target, list[j]))
        invariant !SomeUnder(target, list[..i], limit) ==> index == 0 && current == limit
      {
        var d := SquaredDistance(target, list[i]);
        if d < current {
          current := d;
          index := i;
        }
        assert list[..i + 1][i] == list[i];
        assert forall j :: 0 <= j < i ==> list[..i + 1][j] == list[..i][j];
      }
      assert list[..|list|] == list;
    }

    /**
     * Rebuilds `path` from the end back to the start, each step moving to
     * the neighbour labelled one less that lies nearest the end.
     */
    method SetPath()
      requires Valid() && Layered(visited, start)
      modifies this
      ensures Valid() && visited == old(visited) && findDistance == old(findDistance)
      ensures path == Route(visited, end)
    {
      ghost var L := visited;
      path := [];
      var x, y := end.x, end.y;
      if !(end in tiles && visited[end] > 0) {
        return;
      }
      path := path + [end];
      var step := visited[end] - 1;
      RouteEntry(L, end, Cell(x, y), step, path);
      while step > -1
        invariant Valid() && visited == L && findDistance == old(findDistance)
        invariant -1 <= step && HasLabel(L, Cell(x, y), step + 1)
        invariant path + TraceFrom(L, end, Cell(x, y), step) == Route(L, end)
        decreases step
      {
        var t1 := TestDirection(x, y, step, 1);
        var t2 := TestDirection(x, y, step, 2);
        var t3 := TestDirection(x, y, step, 3);
        var t4 := TestDirection(x, y, step, 4);
        var candidates := (if t1 then [Cell(x, y + 1)] else []) + (if t2 then [Cell(x, y - 1)] else []) +
                          (if t3 then [Cell(x + 1, y)] else []) + (if t4 then [Cell(x - 1, y)] else []);
        Collected(L, x, y, step, t1, t2, t3, t4, candidates);
        TraceHasCandidates(L, start, Cell(x, y), step);
        SlotsUnderLimit(rows, columns, end, candidates[0]);
        var index := FindClosest(end, candidates);
        TraceStep(L, end, Cell(x, y), step, candidates, index);
        var next := candidates[index];
        ghost var before := path;
        path := path + [next];
        Appended(before, next, TraceFrom(L, end, next, step - 1), Route(L, end));
        x, y := next.x, next.y;
        step := step - 1;
      }
    }

    /** When asked to, labels the table and rebuilds the path, then clears the request. */
    method Update()
      requires Valid()
      modifies this
      ensures Valid() && !findDistance
      ensures old(findDistance) ==>
        visited == Labelled(tiles, start, rows * columns - 1) && path == Route(visited, end)
      ensures !old(findDistance) ==> visited == old(visited) && path == old(path)
    {
      if findDistance {
        SetDistance();
        LabelledIsLayered(visited, tiles, start, rows * columns - 1);
        SetPath();
        findDistance := false;
      }
    }
  }

  /**
   * A 1 x 2 table whose second slot holds no tile: InitializeGrid as written
   * throws on it, where the rest of GridBehaviour treats the slot as a wall.
   */
  method WallThrows() returns (thrown: bool)
    ensures thrown
  {
    var g := new GridBehaviour(1, 2, {Cell(0, 0)}, Cell(0, 0), Cell(0, 0), map[Cell(0, 0) := 5]);
    assert InGrid(1, 2, Cell(0, 1));
    thrown := g.InitializeGridAsWritten();
  }
}
