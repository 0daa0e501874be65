/// The breadth-first labelling of GridBehaviour (GridBehaviour.cs:55-104,
/// 154-174), stated on values. Each present tile of the rows x columns table
/// carries a `visited` label: -1 for "not reached", otherwise its distance
/// from the start in steps through present tiles. A missing slot of
/// `gridArray` is a wall: it has no tile and no label.
module Wavefront {
  import opened Grid

  /** The `visited` label of every present tile, keyed by its slot (row, column). */
  type Labels = map<Cell, int>

  predicate InGrid(rows: int, columns: int, c: Cell)
  {
    0 <= c.x < rows && 0 <= c.y < columns
  }

  /** Every present tile sits in a slot of the rows x columns table. */
  predicate TilesInGrid(rows: int, columns: int, tiles: set<Cell>)
  {
    forall c :: c in tiles ==> InGrid(rows, columns, c)
  }

  /** The neighbour TestDirection inspects: 1 is y + 1, 2 is y - 1, 3 is x + 1, 4 is x - 1. */
  function Toward(c: Cell, direction: int): (n: Cell)
    requires 1 <= direction <= 4
    ensures Adjacent(c, n)
  {
    if direction == 1 then Cell(c.x, c.y + 1)
    else if direction == 2 then Cell(c.x, c.y - 1)
    else if direction == 3 then Cell(c.x + 1, c.y)
    else Cell(c.x - 1, c.y)
  }

  /** The four directions reach exactly the 4-adjacent cells. */
  lemma {:induction false} AdjacentIsToward(c: Cell, d: Cell)
    ensures Adjacent(c, d) <==> exists direction :: 1 <= direction <= 4 && d == Toward(c, direction)
  {
    AdjacentCases(c, d);
    if Adjacent(c, d) {
      if d == Cell(c.x, c.y + 1) {
        assert d == Toward(c, 1);
      } else if d == Cell(c.x, c.y - 1) {
        assert d == Toward(c, 2);
      } else if d == Cell(c.x + 1, c.y) {
        assert d == Toward(c, 3);
      } else {
        assert d == Toward(c, 4);
      }
    }
  }

  /** Tile `n` is present and labelled `level`. */
  predicate HasLabel(L: Labels, n: Cell, level: int)
  {
    n in L && L[n] == level
  }

  /** Some neighbour of `c` is a present tile labelled `level`. */
  predicate Fed(L: Labels, c: Cell, level: int)
  {
    HasLabel(L, Toward(c, 1), level) || HasLabel(L, Toward(c, 2), level) ||
    HasLabel(L, Toward(c, 3), level) || HasLabel(L, Toward(c, 4), level)
  }

  /** Fed looks at exactly the present tiles 4-adjacent to `c`. */
  lemma {:induction false} FedIsAdjacent(L: Labels, c: Cell, level: int)
    ensures Fed(L, c, level) <==> exists d :: d in L && Adjacent(c, d) && L[d] == level
  {
    if d :| d in L && Adjacent(c, d) && L[d] == level {
      AdjacentIsToward(c, d);
    }
  }

  /**
   * TestAllDirections at tile `d` with `step`: each unlabelled neighbour of
   * `d` gets `step`. A tile that already holds a label keeps it.
   */
  function Spread(L: Labels, d: Cell, step: int): (r: Labels)
    ensures r.Keys == L.Keys
    ensures forall c :: c in L && L[c] != -1 ==> r[c] == L[c]
  {
    map c | c in L :: if L[c] == -1 && Adjacent(c, d) then step else L[c]
  }

  /** SetVisited on neighbour `n` when TestDirection finds it present and unlabelled. */
  function Mark(L: Labels, n: Cell, step: int): (r: Labels)
    ensures r.Keys == L.Keys
    ensures n in L && L[n] == -1 ==> r[n] == step
    ensures forall c :: c in L && (c != n || L[c] != -1) ==> r[c] == L[c]
  {
    if HasLabel(L, n, -1) then L[n := step] else L
  }

  /** TestAllDirections' four tests and writes, one direction after the other, spread from `d`. */
  lemma MarksSpread(L: Labels, d: Cell, step: int)
    ensures Mark(Mark(Mark(Mark(L, Toward(d, 1), step), Toward(d, 2), step), Toward(d, 3), step), Toward(d, 4), step)
            == Spread(L, d, step)
  {
    var L1 := Mark(L, Toward(d, 1), step);
    var L2 := Mark(L1, Toward(d, 2), step);
    var L3 := Mark(L2, Toward(d, 3), step);
    var L4 := Mark(L3, Toward(d, 4), step);
    forall c | c in L ensures L4[c] == Spread(L, d, step)[c] {
      MarkAt(L, Toward(d, 1), step, c);
      MarkAt(L1, Toward(d, 2), step, c);
      MarkAt(L2, Toward(d, 3), step, c);
      MarkAt(L3, Toward(d, 4), step, c);
      AdjacentCases(c, d);
      DistanceSymmetric(c, d);
    }
  }

  /** Mark changes at most the label of `n`. */
  lemma MarkAt(L: Labels, n: Cell, step: int, c: Cell)
    requires c in L
    ensures Mark(L, n, step)[c] == if c == n && L[c] == -1 then step else L[c]
  {
  }

  /**
   * One pass of the SetDistance loop with `step` (GridBehaviour.cs:168-172),
   * in closed form: an unlabelled tile next to a tile labelled `step - 1`
   * gets `step`; every other label stays.
   */
  function Pass(L: Labels, step: int): (r: Labels)
    ensures r.Keys == L.Keys
    ensures forall c :: c in L && L[c] != -1 ==> r[c] == L[c]
  {
    map c | c in L :: if L[c] == -1 && Fed(L, c, step - 1) then step else L[c]
  }

  /**
   * Slot `d` comes before slot (i, j) in the row-major order in which
   * `foreach` visits `gridArray`.
   */
  predicate Before(d: Cell, i: int, j: int)
  {
    d.x < i || (d.x == i && d.y < j)
  }

  /** `d` is a tile labelled `level` that the pass has visited before slot (i, j). */
  predicate FeedsBefore(L: Labels, d: Cell, level: int, i: int, j: int)
  {
    HasLabel(L, d, level) && Before(d, i, j)
  }

  predicate FedBefore(L: Labels, c: Cell, level: int, i: int, j: int)
  {
    FeedsBefore(L, Toward(c, 1), level, i, j) || FeedsBefore(L, Toward(c, 2), level, i, j) ||
    FeedsBefore(L, Toward(c, 3), level, i, j) || FeedsBefore(L, Toward(c, 4), level, i, j)
  }

  /**
   * The labels part-way through a pass, when the slots before (i, j) have
   * been visited: only tiles next to an already visited `step - 1` tile have
   * been labelled.
   */
  function Sweep(L: Labels, step: int, i: int, j: int): (r: Labels)
    ensures r.Keys == L.Keys
  {
    map c | c in L :: if L[c] == -1 && FedBefore(L, c, step - 1, i, j) then step else L[c]
  }

  /** Before any slot is visited the labels are those the pass started with. */
  lemma {:induction false} SweepStart(rows: nat, columns: nat, L: Labels, step: int)
    requires TilesInGrid(rows, columns, L.Keys)
    ensures Sweep(L, step, 0, 0) == L
  {
    forall c | c in L ensures Sweep(L, step, 0, 0)[c] == L[c] {
      NotBeforeStart(rows, columns, L, Toward(c, 1));
      NotBeforeStart(rows, columns, L, Toward(c, 2));
      NotBeforeStart(rows, columns, L, Toward(c, 3));
      NotBeforeStart(rows, columns, L, Toward(c, 4));
    }
  }

  lemma NotBeforeStart(rows: nat, columns: nat, L: Labels, n: Cell)
    requires TilesInGrid(rows, columns, L.Keys)
    ensures n in L ==> !Before(n, 0, 0)
  {
    if n in L {
      assert InGrid(rows, columns, n);
    }
  }

  /**
   * Visiting slot (i, j): if it holds a tile labelled `step - 1`,
   * TestAllDirections spreads from it; either way the labels become those
   * after the slot.
   */
  lemma {:induction false} SweepStep(L: Labels, step: int, i: int, j: int)
    requires step >= 1
    ensures var M, d := Sweep(L, step, i, j), Cell(i, j);
      Sweep(L, step, i, j + 1) == if d in M && M[d] == step - 1 then Spread(M, d, step) else M
  {
    var M, d := Sweep(L, step, i, j), Cell(i, j);
    var R := if d in M && M[d] == step - 1 then Spread(M, d, step) else M;
    forall c | c in L ensures Sweep(L, step, i, j + 1)[c] == R[c] {
      SweepStepAt(L, step, i, j, c);
    }
  }

  lemma SweepStepAt(L: Labels, step: int, i: int, j: int, c: Cell)
    requires step >= 1 && c in L
    ensures var M, d := Sweep(L, step, i, j), Cell(i, j);
      Sweep(L, step, i, j + 1)[c] == (if d in M && M[d] == step - 1 then Spread(M, d, step) else M)[c]
  {
    var d := Cell(i, j);
    var M := Sweep(L, step, i, j);
    assert d in M ==> (M[d] == step - 1 <==> L[d] == step - 1);
    AdjacentCases(c, d);
    assert FedBefore(L, c, step - 1, i, j + 1) <==>
      FedBefore(L, c, step - 1, i, j) || (Adjacent(c, d) && HasLabel(L, d, step - 1));
  }

  /** The end of row `i` is the start of row `i + 1`. */
  lemma {:induction false} SweepNextRow(rows: nat, columns: nat, L: Labels, step: int, i: int)
    requires TilesInGrid(rows, columns, L.Keys)
    ensures Sweep(L, step, i, columns) == Sweep(L, step, i + 1, 0)
  {
    forall c | c in L ensures Sweep(L, step, i, columns)[c] == Sweep(L, step, i + 1, 0)[c] {
      RowEndNeighbour(rows, columns, L, Toward(c, 1), i);
      RowEndNeighbour(rows, columns, L, Toward(c, 2), i);
      RowEndNeighbour(rows, columns, L, Toward(c, 3), i);
      RowEndNeighbour(rows, columns, L, Toward(c, 4), i);
    }
  }

  lemma RowEndNeighbour(rows: nat, columns: nat, L: Labels, n: Cell, i: int)
    requires TilesInGrid(rows, columns, L.Keys)
    ensures n in L ==> (Before(n, i, columns) <==> Before(n, i + 1, 0)) && Before(n, rows, 0)
  {
    if n in L {
      assert InGrid(rows, columns, n);
    }
  }

  /** After every slot has been visited, the pass is complete. */
  lemma {:induction false} SweepEnd(rows: nat, columns: nat, L: Labels, step: int)
    requires TilesInGrid(rows, columns, L.Keys)
    ensures Sweep(L, step, rows, 0) == Pass(L, step)
  {
    forall c | c in L ensures Sweep(L, step, rows, 0)[c] == Pass(L, step)[c] {
      RowEndNeighbour(rows, columns, L, Toward(c, 1), 0);
      RowEndNeighbour(rows, columns, L, Toward(c, 2), 0);
      RowEndNeighbour(rows, columns, L, Toward(c, 3), 0);
      RowEndNeighbour(rows, columns, L, Toward(c, 4), 0);
    }
  }

  /**
   * `c` is a present tile that a walk through present tiles reaches from the
   * start in at most `k` steps.
   */
  predicate InLayer(tiles: set<Cell>, start: Cell, k: nat, c: Cell)
    ensures InLayer(tiles, start, k, c) ==> c in tiles && start in tiles
    decreases k
  {
    if k == 0 then c == start && c in tiles
    else
      InLayer(tiles, start, k - 1, c) ||
      (c in tiles &&
       (InLayer(tiles, start, k - 1, Toward(c, 1)) || InLayer(tiles, start, k - 1, Toward(c, 2)) ||
        InLayer(tiles, start, k - 1, Toward(c, 3)) || InLayer(tiles, start, k - 1, Toward(c, 4))))
  }

  /** A present tile next to layer `k` is in layer `k + 1`. */
  lemma StepIn(tiles: set<Cell>, start: Cell, k: nat, c: Cell, direction: int)
    requires 1 <= direction <= 4
    ensures c in tiles && InLayer(tiles, start, k, Toward(c, direction)) ==> InLayer(tiles, start, k + 1, c)
  {
  }

  /** A present tile next to layer `k - 1` is in layer `k`. */
  lemma StepInto(tiles: set<Cell>, start: Cell, j: nat, k: nat, c: Cell, direction: int)
    requires 1 <= direction <= 4 && k == j + 1
    requires c in tiles && InLayer(tiles, start, j, Toward(c, direction))
    ensures InLayer(tiles, start, k, c)
  {
  }

  lemma {:induction false} LayerMonotone(tiles: set<Cell>, start: Cell, j: nat, k: nat, c: Cell)
    requires j <= k && InLayer(tiles, start, j, c)
    ensures InLayer(tiles, start, k, c)
    decreases k
  {
    if j < k {
      LayerMonotone(tiles, start, j, k - 1, c);
    }
  }

  /** The first layer `c` appears in. */
  function Depth(tiles: set<Cell>, start: Cell, c: Cell, k: nat): (d: nat)
    requires InLayer(tiles, start, k, c)
    ensures d <= k && InLayer(tiles, start, d, c)
    ensures d > 0 ==> !InLayer(tiles, start, d - 1, c)
    decreases k
  {
    if k == 0 || !InLayer(tiles, start, k - 1, c) then k else Depth(tiles, start, c, k - 1)
  }

  /** A tile's depth does not depend on how many more layers are built. */
  lemma {:induction false} DepthStable(tiles: set<Cell>, start: Cell, c: Cell, j: nat, k: nat)
    requires j <= k && InLayer(tiles, start, j, c)
    ensures InLayer(tiles, start, k, c)
    ensures Depth(tiles, start, c, k) == Depth(tiles, start, c, j)
    decreases k
  {
    LayerMonotone(tiles, start, j, k, c);
    if j < k {
      LayerMonotone(tiles, start, j, k - 1, c);
      DepthStable(tiles, start, c, j, k - 1);
    }
  }

  /** A tile first appearing in layer `j` has depth `j`, however many layers are built. */
  lemma DepthExact(tiles: set<Cell>, start: Cell, c: Cell, j: nat, k: nat)
    requires j <= k && InLayer(tiles, start, j, c) && (j > 0 ==> !InLayer(tiles, start, j - 1, c))
    ensures InLayer(tiles, start, k, c) && Depth(tiles, start, c, k) == j
  {
    DepthStable(tiles, start, c, j, k);
  }

  /**
   * The labels after `s` passes, in closed form: a tile within `s` steps of
   * the start holds its depth, every other tile -1.
   */
  function Labelled(tiles: set<Cell>, start: Cell, s: nat): (L: Labels)
    ensures L.Keys == tiles
  {
    map c | c in tiles :: if InLayer(tiles, start, s, c) then Depth(tiles, start, c, s) else -1
  }

  /** The labels InitializeGrid leaves: 0 on the start tile, -1 on every other present tile. */
  lemma {:induction false} LabelledZero(tiles: set<Cell>, start: Cell)
    ensures forall c :: c in tiles ==> Labelled(tiles, start, 0)[c] == if c == start then 0 else -1
  {
  }

  /**
   * A neighbour of a tile outside layer `s - 1` is labelled `s - 1` after
   * `s - 1` passes exactly when it lies in layer `s - 1`: it cannot lie in an
   * earlier one.
   */
  lemma FeederAt(tiles: set<Cell>, start: Cell, s: nat, c: Cell, direction: int)
    requires s >= 1 && 1 <= direction <= 4 && c in tiles && !InLayer(tiles, start, s - 1, c)
    ensures HasLabel(Labelled(tiles, start, s - 1), Toward(c, direction), s - 1) <==>
            InLayer(tiles, start, s - 1, Toward(c, direction))
  {
    if s - 1 > 0 {
      StepIn(tiles, start, s - 2, c, direction);
    }
  }

  lemma PassAdvancesAt(tiles: set<Cell>, start: Cell, s: nat, c: Cell)
    requires s >= 1 && c in tiles
    ensures Pass(Labelled(tiles, start, s - 1), s)[c] == Labelled(tiles, start, s)[c]
  {
    if !InLayer(tiles, start, s - 1, c) {
      FeederAt(tiles, start, s, c, 1);
      FeederAt(tiles, start, s, c, 2);
      FeederAt(tiles, start, s, c, 3);
      FeederAt(tiles, start, s, c, 4);
    }
  }

  /** Pass `s` turns the labels after `s - 1` passes into the labels after `s`. */
  lemma {:induction false} PassAdvances(tiles: set<Cell>, start: Cell, s: nat)
    requires s >= 1
    ensures Pass(Labelled(tiles, start, s - 1), s) == Labelled(tiles, start, s)
  {
    forall c | c in tiles ensures Pass(Labelled(tiles, start, s - 1), s)[c] == Labelled(tiles, start, s)[c] {
      PassAdvancesAt(tiles, start, s, c);
    }
  }

  /**
   * The labels form layers, the property SetPath relies on: a tile labelled
   * k > 0 has a neighbour labelled k - 1, and only the start is labelled 0.
   */
  ghost predicate Layered(L: Labels, start: Cell)
  {
    forall c :: c in L ==> (L[c] > 0 ==> Fed(L, c, L[c] - 1)) && (L[c] == 0 ==> c == start)
  }

  lemma LayeredAt(tiles: set<Cell>, start: Cell, s: nat, c: Cell, k: nat)
    requires c in tiles && 0 < k <= s && InLayer(tiles, start, k, c) && !InLayer(tiles, start, k - 1, c)
    ensures Fed(Labelled(tiles, start, s), c, k - 1)
  {
    var direction :| 1 <= direction <= 4 && InLayer(tiles, start, k - 1, Toward(c, direction));
    var n := Toward(c, direction);
    if k - 1 > 0 {
      StepIn(tiles, start, k - 2, c, direction);
    }
    DepthExact(tiles, start, n, k - 1, s);
    assert HasLabel(Labelled(tiles, start, s), n, k - 1);
  }

  lemma {:induction false} LabelledIsLayered(L: Labels, tiles: set<Cell>, start: Cell, s: nat)
    requires L == Labelled(tiles, start, s)
    ensures Layered(L, start)
  {
    forall c | c in L && L[c] > 0 ensures Fed(L, c, L[c] - 1) {
      LayeredAt(tiles, start, s, c, Depth(tiles, start, c, s));
    }
  }

  /** A labelled tile next to a tile of depth `j` has depth at most `j + 1`. */
  lemma DepthNextTo(tiles: set<Cell>, start: Cell, s: nat, c: Cell, d: Cell)
    requires Adjacent(c, d) && InLayer(tiles, start, s, c) && InLayer(tiles, start, s, d)
    ensures Depth(tiles, start, c, s) <= Depth(tiles, start, d, s) + 1
  {
    var j := Depth(tiles, start, d, s);
    AdjacentIsToward(c, d);
    var direction :| 1 <= direction <= 4 && d == Toward(c, direction);
    StepIn(tiles, start, j, c, direction);
    if j + 1 <= s {
      DepthStable(tiles, start, c, j + 1, s);
    }
  }

  /**
   * Two adjacent tiles that both carry a label differ by at most one: the
   * labels form a breadth-first layering, after any number of passes.
   */
  lemma {:induction false} AdjacentLabelsClose(tiles: set<Cell>, start: Cell, s: nat, c: Cell, d: Cell)
    requires c in tiles && d in tiles && Adjacent(c, d)
    ensures var L := Labelled(tiles, start, s);
      L[c] != -1 && L[d] != -1 ==> -1 <= L[c] - L[d] <= 1
  {
    if InLayer(tiles, start, s, c) && InLayer(tiles, start, s, d) {
      DepthNextTo(tiles, start, s, c, d);
      DistanceSymmetric(c, d);
      DepthNextTo(tiles, start, s, d, c);
    }
  }

  /** A walk through present tiles from the start: each tile 4-adjacent to the one before. */
  ghost predicate TileWalk(tiles: set<Cell>, start: Cell, p: seq<Cell>)
  {
    |p| > 0 && p[0] == start &&
    (forall i :: 0 <= i < |p| ==> p[i] in tiles) &&
    (forall i :: 0 <= i < |p| - 1 ==> Adjacent(p[i], p[i + 1]))
  }

  /** A walk that ends on `c` after at most `k` steps. */
  ghost predicate WalkWithin(tiles: set<Cell>, start: Cell, c: Cell, k: nat)
  {
    exists p :: TileWalk(tiles, start, p) && p[|p| - 1] == c && |p| <= k + 1
  }

  /** Layer `k` holds exactly the tiles some walk of at most `k` steps ends on. */
  lemma {:induction false} LayerIsWalks(tiles: set<Cell>, start: Cell, c: Cell, k: nat)
    ensures InLayer(tiles, start, k, c) <==> WalkWithin(tiles, start, c, k)
    decreases k
  {
    if InLayer(tiles, start, k, c) {
      if k == 0 {
        assert TileWalk(tiles, start, [start]);
      } else if InLayer(tiles, start, k - 1, c) {
        LayerIsWalks(tiles, start, c, k - 1);
      } else {
        var direction :| 1 <= direction <= 4 && InLayer(tiles, start, k - 1, Toward(c, direction));
        var d := Toward(c, direction);
        LayerIsWalks(tiles, start, d, k - 1);
        var p :| TileWalk(tiles, start, p) && p[|p| - 1] == d && |p| <= k;
        DistanceSymmetric(c, d);
        assert TileWalk(tiles, start, p + [c]);
      }
    }
    if WalkWithin(tiles, start, c, k) {
      var p :| TileWalk(tiles, start, p) && p[|p| - 1] == c && |p| <= k + 1;
      if |p| == 1 {
        LayerMonotone(tiles, start, 0, k, c);
      } else {
        var q := p[..|p| - 1];
        var d := q[|q| - 1];
        assert TileWalk(tiles, start, q);
        LayerIsWalks(tiles, start, d, k - 1);
        assert Adjacent(d, c);
        DistanceSymmetric(c, d);
        AdjacentIsToward(c, d);
        var direction :| 1 <= direction <= 4 && d == Toward(c, direction);
        StepIn(tiles, start, k - 1, c, direction);
      }
    }
  }

  /** A shortest walk to `c` takes exactly `k` steps. */
  ghost predicate Shortest(tiles: set<Cell>, start: Cell, c: Cell, k: nat)
  {
    WalkWithin(tiles, start, c, k) && (k > 0 ==> !WalkWithin(tiles, start, c, k - 1))
  }

  /** A tile's depth is the length of its shortest walk from the start. */
  lemma {:induction false} DepthIsShortest(tiles: set<Cell>, start: Cell, c: Cell, s: nat)
    requires InLayer(tiles, start, s, c)
    ensures Shortest(tiles, start, c, Depth(tiles, start, c, s))
  {
    var d := Depth(tiles, start, c, s);
    LayerIsWalks(tiles, start, c, d);
    if d > 0 {
      LayerIsWalks(tiles, start, c, d - 1);
    }
  }

  /** Layer `k + 1` adds nothing to layer `k`. */
  ghost predicate Stable(tiles: set<Cell>, start: Cell, k: nat)
  {
    forall c :: InLayer(tiles, start, k + 1, c) ==> InLayer(tiles, start, k, c)
  }

  /** Once a layer adds nothing, no later layer does. */
  lemma {:induction false} StableStaysStable(tiles: set<Cell>, start: Cell, k: nat, j: nat, c: Cell)
    requires Stable(tiles, start, k)
    ensures InLayer(tiles, start, k + j, c) ==> InLayer(tiles, start, k, c)
    decreases j
  {
    if j > 0 && InLayer(tiles, start, k + j, c) {
      StableStaysStable(tiles, start, k, j - 1, c);
      if !InLayer(tiles, start, k + j - 1, c) {
        var direction :| 1 <= direction <= 4 && InLayer(tiles, start, k + j - 1, Toward(c, direction));
        StableStaysStable(tiles, start, k, j - 1, Toward(c, direction));
        StepIn(tiles, start, k, c, direction);
      }
    }
  }

  lemma StableLater(tiles: set<Cell>, start: Cell, k: nat)
    ensures Stable(tiles, start, k) ==> Stable(tiles, start, k + 1)
  {
    if Stable(tiles, start, k) {
      var k2 := k + 2;
      forall c | InLayer(tiles, start, k2, c) ensures InLayer(tiles, start, k + 1, c) {
        StableStaysStable(tiles, start, k, 2, c);
        LayerMonotone(tiles, start, k, k + 1, c);
      }
    }
  }

  /** The tiles of layer `k`, as a set. */
  ghost function Layer(tiles: set<Cell>, start: Cell, k: nat): set<Cell>
  {
    set c | c in tiles && InLayer(tiles, start, k, c)
  }

  /** While the layers keep growing, layer `k + 1` holds at least k + 2 tiles. */
  lemma {:induction false} GrowingLayers(tiles: set<Cell>, start: Cell, k: nat)
    requires start in tiles && !Stable(tiles, start, k)
    ensures |Layer(tiles, start, k + 1)| >= k + 2
    decreases k
  {
    var A, B := Layer(tiles, start, k), Layer(tiles, start, k + 1);
    forall c | c in A ensures c in B {
      LayerMonotone(tiles, start, k, k + 1, c);
    }
    var x :| InLayer(tiles, start, k + 1, x) && !InLayer(tiles, start, k, x);
    SubsetCount(A, B - {x});
    if k > 0 {
      StableLater(tiles, start, k - 1);
      GrowingLayers(tiles, start, k - 1);
    } else {
      assert A == {start};
    }
  }

  lemma {:induction false} SubsetCount<T>(A: set<T>, B: set<T>)
    requires A <= B
    ensures |A| <= |B|
    decreases |A|
  {
    if a :| a in A {
      SubsetCount(A - {a}, B - {a});
    }
  }

  /** Row `r` of the table has `columns` slots, so at most that many tiles. */
  lemma {:induction false} RowCount(r: int, columns: nat, s: set<Cell>)
    requires forall c :: c in s ==> c.x == r && 0 <= c.y < columns
    ensures |s| <= columns
    decreases columns
  {
    if columns > 0 {
      RowCount(r, columns - 1, s - {Cell(r, columns - 1)});
    } else {
      assert forall c :: c !in s;
      assert s == {};
    }
  }

  /** The table has rows x columns slots, so at most that many tiles. */
  lemma {:induction false} TileCount(rows: nat, columns: nat, tiles: set<Cell>)
    requires TilesInGrid(rows, columns, tiles)
    ensures |tiles| <= rows * columns
    decreases rows
  {
    if rows > 0 {
      var above := set c | c in tiles && c.x < rows - 1;
      var last := set c | c in tiles && c.x == rows - 1;
      assert tiles == above + last;
      TileCount(rows - 1, columns, above);
      RowCount(rows - 1, columns, last);
      assert rows * columns == (rows - 1) * columns + columns;
    } else {
      assert forall c :: c !in tiles;
      assert tiles == {};
    }
  }

  /** Some walk through present tiles ends on `c`. */
  ghost predicate Connected(tiles: set<Cell>, start: Cell, c: Cell)
  {
    exists k: nat :: WalkWithin(tiles, start, c, k)
  }

  /**
   * rows x columns - 1 layers hold every tile that can be reached at all:
   * the layers stop growing within as many steps as there are tiles.
   */
  lemma {:induction false} Saturated(rows: nat, columns: nat, tiles: set<Cell>, start: Cell, c: Cell)
    requires TilesInGrid(rows, columns, tiles) && rows * columns > 0
    ensures InLayer(tiles, start, rows * columns - 1, c) <==> Connected(tiles, start, c)
  {
    var N := rows * columns - 1;
    LayerIsWalks(tiles, start, c, N);
    if Connected(tiles, start, c) {
      var k: nat :| WalkWithin(tiles, start, c, k);
      LayerIsWalks(tiles, start, c, k);
      if k <= N {
        LayerMonotone(tiles, start, k, N, c);
      } else {
        TileCount(rows, columns, tiles);
        SubsetCount(Layer(tiles, start, N + 1), tiles);
        if !Stable(tiles, start, N) {
          GrowingLayers(tiles, start, N);
        }
        StableStaysStable(tiles, start, N, k - N, c);
      }
    }
  }

  /**
   * The labels SetDistance leaves, as the source promises them: -1 exactly on
   * the tiles no walk reaches, and on every other tile the number of steps of
   * a shortest walk to it from the start.
   */
  lemma {:induction false} LabelsAreDistances(rows: nat, columns: nat, tiles: set<Cell>, start: Cell, c: Cell)
    requires TilesInGrid(rows, columns, tiles) && rows * columns > 0 && c in tiles
    ensures var L := Labelled(tiles, start, rows * columns - 1);
      (L[c] == -1 <==> !Connected(tiles, start, c)) &&
      (L[c] != -1 ==> L[c] >= 0 && Shortest(tiles, start, c, L[c]))
  {
    var N := rows * columns - 1;
    Saturated(rows, columns, tiles, start, c);
    if InLayer(tiles, start, N, c) {
      DepthIsShortest(tiles, start, c, N);
    }
  }

  /** Every slot of the table holds a tile. */
  ghost predicate Full(rows: int, columns: int, tiles: set<Cell>)
  {
    forall c :: c in tiles <==> InGrid(rows, columns, c)
  }

  /** On a full table, layer `k` is every slot within Manhattan distance `k` of the start. */
  lemma FullLayers(rows: nat, columns: nat, tiles: set<Cell>, start: Cell, k: nat, c: Cell)
    requires Full(rows, columns, tiles) && InGrid(rows, columns, start)
    ensures InLayer(tiles, start, k, c) <==> InGrid(rows, columns, c) && Distance(start, c) <= k
  {
    FullLayersWithin(rows, columns, tiles, start, k, c);
    if InGrid(rows, columns, c) && Distance(start, c) <= k {
      FullLayersCover(rows, columns, tiles, start, k, c);
    }
  }

  lemma {:induction false} FullLayersWithin(rows: nat, columns: nat, tiles: set<Cell>, start: Cell, k: nat, c: Cell)
    requires Full(rows, columns, tiles)
    ensures InLayer(tiles, start, k, c) ==> InGrid(rows, columns, c) && Distance(start, c) <= k
    decreases k
  {
    if k > 0 && InLayer(tiles, start, k, c) {
      if InLayer(tiles, start, k - 1, c) {
        FullLayersWithin(rows, columns, tiles, start, k - 1, c);
      } else {
        var direction :| 1 <= direction <= 4 && InLayer(tiles, start, k - 1, Toward(c, direction));
        FullLayersWithin(rows, columns, tiles, start, k - 1, Toward(c, direction));
        StepAway(start, c, Toward(c, direction), k);
      }
    }
  }

  lemma {:induction false} FullLayersCover(rows: nat, columns: nat, tiles: set<Cell>, start: Cell, k: nat, c: Cell)
    requires Full(rows, columns, tiles) && InGrid(rows, columns, start)
    requires InGrid(rows, columns, c) && Distance(start, c) <= k
    ensures InLayer(tiles, start, k, c)
    decreases k
  {
    if Distance(start, c) == 0 {
      assert c == start && c in tiles;
      LayerMonotone(tiles, start, 0, k, c);
    } else {
      var direction := StepToward(rows, columns, start, c);
      var n := Toward(c, direction);
      var m: nat := k - 1;
      FullLayersCover(rows, columns, tiles, start, m, n);
      assert c in tiles;
      StepInto(tiles, start, m, k, c, direction);
    }
  }

  /** A cell next to one within k - 1 of the start is within k. */
  lemma StepAway(start: Cell, c: Cell, n: Cell, k: int)
    requires Adjacent(c, n) && Distance(start, n) <= k - 1
    ensures Distance(start, c) <= k
  {
    DistanceStep(c, n, start);
    DistanceSymmetric(start, c);
    DistanceSymmetric(start, n);
  }

  /** A slot k > 0 steps from the start has a neighbour in the table one step nearer. */
  lemma StepToward(rows: nat, columns: nat, start: Cell, c: Cell) returns (direction: int)
    requires InGrid(rows, columns, start) && InGrid(rows, columns, c) && Distance(start, c) > 0
    ensures 1 <= direction <= 4
    ensures InGrid(rows, columns, Toward(c, direction)) && Distance(start, Toward(c, direction)) == Distance(start, c) - 1
  {
    direction := if c.x > start.x then 4 else if c.x < start.x then 3 else if c.y > start.y then 2 else 1;
  }

  /** No two slots of the table are more than rows x columns - 1 steps apart. */
  lemma GridDiameter(rows: nat, columns: nat, a: Cell, b: Cell)
    requires InGrid(rows, columns, a) && InGrid(rows, columns, b)
    ensures rows * columns >= 1 && Distance(a, b) <= rows * columns - 1
  {
    assert Abs(a.x - b.x) <= rows - 1 && Abs(a.y - b.y) <= columns - 1;
    AreaBound(rows, columns);
  }

  /** A table with a slot has at least as many slots as a row and a column together, less the shared one. */
  lemma AreaBound(rows: nat, columns: nat)
    requires rows >= 1 && columns >= 1
    ensures rows * columns >= rows + columns - 1
  {
    var r: nat, k: nat := rows - 1, columns - 1;
    assert rows * columns == r * k + r + k + 1 by {
      assert rows * columns == (r + 1) * (k + 1);
    }
  }

  /** On a full table the labels are the Manhattan distances from the start. */
  lemma {:induction false} FullGridManhattan(rows: nat, columns: nat, tiles: set<Cell>, start: Cell, c: Cell)
    requires Full(rows, columns, tiles) && InGrid(rows, columns, start) && c in tiles
    ensures Labelled(tiles, start, rows * columns - 1)[c] == Distance(start, c)
  {
    GridDiameter(rows, columns, start, c);
    var N := rows * columns - 1;
    var k := Distance(start, c);
    FullLayers(rows, columns, tiles, start, k, c);
    if k > 0 {
      FullLayers(rows, columns, tiles, start, k - 1, c);
    }
    DepthExact(tiles, start, c, k, N);
    assert Labelled(tiles, start, N)[c] == Depth(tiles, start, c, N);
  }
}
