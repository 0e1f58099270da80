/**
 * The transition rule of the Life world, stated on a snapshot of the grid:
 * a row-major sequence of liveness flags, `numColumns` wide and `numRows`
 * high. Positions outside the grid are permanently dead (no wrap-around).
 * The `World` class in module Life is proved against these definitions.
 */
module Rules {
  import opened Patterns

  /** A snapshot has exactly one flag per grid position. */
  predicate Shaped(numColumns: int, numRows: int, cells: seq<bool>)
  {
    numColumns > 0 && numRows > 0 && |cells| == numColumns * numRows
  }

  predicate InGrid(numColumns: int, numRows: int, x: int, y: int)
  {
    0 <= x < numColumns && 0 <= y < numRows
  }

  /** The column of the cell stored at array index `k`. */
  function ColumnOf(numColumns: int, k: int): int
    requires numColumns > 0
  {
    k % numColumns
  }

  /** The row of the cell stored at array index `k`. */
  function RowOf(numColumns: int, k: int): int
    requires numColumns > 0
  {
    k / numColumns
  }

  lemma {:induction false} MulMonotone(a: int, b: int, n: int)
    requires a <= b && n >= 0
    ensures a * n <= b * n
    decreases b - a
  {
    if a < b {
      MulMonotone(a, b - 1, n);
      assert b * n == (b - 1) * n + n;
    }
  }

  /** Euclidean division recovers the column and row from a row-major index. */
  lemma {:induction false} DivModOfIndex(numColumns: int, x: int, y: int)
    requires 0 <= x < numColumns && 0 <= y
    ensures ColumnOf(numColumns, x + y * numColumns) == x
    ensures RowOf(numColumns, x + y * numColumns) == y
  {
    var k := x + y * numColumns;
    var q, r := k / numColumns, k % numColumns;
    assert k == q * numColumns + r && 0 <= r < numColumns;
    if q > y {
      MulMonotone(y + 1, q, numColumns);
      assert false;
    } else if q < y {
      MulMonotone(q + 1, y, numColumns);
      assert false;
    }
  }

  /** Row-major storage index of column `x`, row `y` (life.js `gridToIndex`):
      on the grid the index lies in the array and determines `x` and `y`. */
  function GridToIndex(numColumns: int, x: int, y: int): (k: int)
    ensures 0 <= x < numColumns && 0 <= y ==>
              0 <= k && ColumnOf(numColumns, k) == x && RowOf(numColumns, k) == y
  {
    if 0 <= x < numColumns && 0 <= y then DivModOfIndex(numColumns, x, y); x + y * numColumns
    else x + y * numColumns
  }

  /** The index of a position in the grid lies inside the array. */
  lemma {:induction false} GridToIndexInRange(numColumns: int, numRows: int, x: int, y: int)
    requires InGrid(numColumns, numRows, x, y)
    ensures 0 <= GridToIndex(numColumns, x, y) < numColumns * numRows
  {
    MulMonotone(y + 1, numRows, numColumns);
  }

  /** Every array index is the index of exactly one grid position. */
  lemma {:induction false} IndexToGrid(numColumns: int, numRows: int, k: int)
    requires numColumns > 0 && 0 <= k < numColumns * numRows
    ensures InGrid(numColumns, numRows, ColumnOf(numColumns, k), RowOf(numColumns, k))
    ensures GridToIndex(numColumns, ColumnOf(numColumns, k), RowOf(numColumns, k)) == k
    ensures forall x, y :: InGrid(numColumns, numRows, x, y) && GridToIndex(numColumns, x, y) == k ==>
              x == ColumnOf(numColumns, k) && y == RowOf(numColumns, k)
  {
    var q := k / numColumns;
    assert k == q * numColumns + k % numColumns;
    if q >= numRows {
      MulMonotone(numRows, q, numColumns);
      assert false;
    }
  }

  /** `GridToIndex` maps the grid one-to-one onto the array indices
      `[0, numColumns * numRows)`. */
  lemma GridToIndexBijection(numColumns: int, numRows: int)
    requires numColumns > 0 && numRows > 0
    ensures forall x, y :: InGrid(numColumns, numRows, x, y) ==>
              0 <= GridToIndex(numColumns, x, y) < numColumns * numRows
    ensures forall x, y, x', y' ::
              InGrid(numColumns, numRows, x, y) && InGrid(numColumns, numRows, x', y') &&
              GridToIndex(numColumns, x, y) == GridToIndex(numColumns, x', y') ==>
              x == x' && y == y'
    ensures forall k :: 0 <= k < numColumns * numRows ==>
              InGrid(numColumns, numRows, ColumnOf(numColumns, k), RowOf(numColumns, k)) &&
              GridToIndex(numColumns, ColumnOf(numColumns, k), RowOf(numColumns, k)) == k
  {
    forall x, y | InGrid(numColumns, numRows, x, y)
      ensures 0 <= GridToIndex(numColumns, x, y) < numColumns * numRows
    {
      GridToIndexInRange(numColumns, numRows, x, y);
    }
    forall k | 0 <= k < numColumns * numRows
      ensures InGrid(numColumns, numRows, ColumnOf(numColumns, k), RowOf(numColumns, k))
      ensures GridToIndex(numColumns, ColumnOf(numColumns, k), RowOf(numColumns, k)) == k
    {
      IndexToGrid(numColumns, numRows, k);
    }
  }

  /** life.js `isAlive` on a snapshot: 1 for a live cell on the grid, 0 for a
      dead cell and for every position off the grid. */
  function AliveAt(numColumns: int, numRows: int, cells: seq<bool>, x: int, y: int): (n: int)
    requires Shaped(numColumns, numRows, cells)
    ensures n == 0 || n == 1
    ensures !InGrid(numColumns, numRows, x, y) ==> n == 0
  {
    if x < 0 || x >= numColumns || y < 0 || y >= numRows then 0
    else
      GridToIndexInRange(numColumns, numRows, x, y);
      if cells[GridToIndex(numColumns, x, y)] then 1 else 0
  }

  /** The number of live cells among the eight Moore neighbours of (x, y). */
  function NeighbourCount(numColumns: int, numRows: int, cells: seq<bool>, x: int, y: int): (n: int)
    requires Shaped(numColumns, numRows, cells)
    ensures 0 <= n <= 8
  {
    AliveAt(numColumns, numRows, cells, x - 1, y - 1) +
    AliveAt(numColumns, numRows, cells, x, y - 1) +
    AliveAt(numColumns, numRows, cells, x + 1, y - 1) +
    AliveAt(numColumns, numRows, cells, x - 1, y) +
    AliveAt(numColumns, numRows, cells, x + 1, y) +
    AliveAt(numColumns, numRows, cells, x - 1, y + 1) +
    AliveAt(numColumns, numRows, cells, x, y + 1) +
    AliveAt(numColumns, numRows, cells, x + 1, y + 1)
  }

  /** The next liveness of a cell that is `alive` now and has `n` live
      neighbours: two keeps the current state, three means alive, any other
      count means dead. This is Conway's B3/S23 rule. */
  function NextState(alive: bool, n: int): (next: bool)
    ensures alive ==> (next <==> n == 2 || n == 3)
    ensures !alive ==> (next <==> n == 3)
  {
    if n == 2 then alive else if n == 3 then true else false
  }

  /** One generation: every cell's next state is computed from the snapshot
      before the step. */
  function Step(numColumns: int, numRows: int, cells: seq<bool>): (next: seq<bool>)
    requires Shaped(numColumns, numRows, cells)
    ensures |next| == |cells|
    ensures forall k :: 0 <= k < |cells| ==>
              (next[k] <==>
                 NeighbourCount(numColumns, numRows, cells, ColumnOf(numColumns, k), RowOf(numColumns, k)) == 3 ||
                 (cells[k] && NeighbourCount(numColumns, numRows, cells, ColumnOf(numColumns, k), RowOf(numColumns, k)) == 2))
  {
    seq(|cells|, k requires 0 <= k < |cells| =>
      NextState(cells[k], NeighbourCount(numColumns, numRows, cells, ColumnOf(numColumns, k), RowOf(numColumns, k))))
  }

  /** After a step, the cell at (x, y) follows the rule applied to its own
      state and its neighbour count before the step. */
  lemma {:induction false} StepAt(numColumns: int, numRows: int, cells: seq<bool>, x: int, y: int)
    requires Shaped(numColumns, numRows, cells) && InGrid(numColumns, numRows, x, y)
    ensures 0 <= GridToIndex(numColumns, x, y) < |cells|
    ensures Step(numColumns, numRows, cells)[GridToIndex(numColumns, x, y)] ==
            NextState(cells[GridToIndex(numColumns, x, y)],
                      NeighbourCount(numColumns, numRows, cells, x, y))
  {
    GridToIndexInRange(numColumns, numRows, x, y);
  }

  /** A corner of the grid has only three neighbours on the grid, so at
      most three of them are alive. */
  lemma CornerCountAtMostThree(numColumns: int, numRows: int, cells: seq<bool>, x: int, y: int)
    requires Shaped(numColumns, numRows, cells)
    requires (x == 0 || x == numColumns - 1) && (y == 0 || y == numRows - 1)
    ensures NeighbourCount(numColumns, numRows, cells, x, y) <= 3
  {
  }

  /** A cell on the grid's border has at most five neighbours on the grid. */
  lemma BorderCountAtMostFive(numColumns: int, numRows: int, cells: seq<bool>, x: int, y: int)
    requires Shaped(numColumns, numRows, cells) && InGrid(numColumns, numRows, x, y)
    requires x == 0 || y == 0 || x == numColumns - 1 || y == numRows - 1
    ensures NeighbourCount(numColumns, numRows, cells, x, y) <= 5
  {
  }

  /** In a snapshot with no live cell, every position reads as dead. */
  lemma {:induction false} AllDeadReadsDead(numColumns: int, numRows: int, cells: seq<bool>)
    requires Shaped(numColumns, numRows, cells)
    requires forall k :: 0 <= k < |cells| ==> !cells[k]
    ensures forall x, y :: AliveAt(numColumns, numRows, cells, x, y) == 0
  {
    forall x, y | InGrid(numColumns, numRows, x, y)
      ensures AliveAt(numColumns, numRows, cells, x, y) == 0
    {
      GridToIndexInRange(numColumns, numRows, x, y);
    }
  }

  /** With no live cell, nothing is born: an all-dead grid stays all-dead. */
  lemma {:induction false} AllDeadStaysDead(numColumns: int, numRows: int, cells: seq<bool>)
    requires Shaped(numColumns, numRows, cells)
    requires forall k :: 0 <= k < |cells| ==> !cells[k]
    ensures forall k :: 0 <= k < |cells| ==> !Step(numColumns, numRows, cells)[k]
  {
    AllDeadReadsDead(numColumns, numRows, cells);
  }

  // ---------------------------------------------------------------------
  // Pattern stamping

  /** The array indices that `addPattern(x, y, pattern)` writes, in the
      order of the pattern's offsets. */
  function StampTargets(numColumns: int, x: int, y: int, pattern: seq<Offset>): (targets: seq<int>)
    ensures |targets| == |pattern|
    ensures forall t {:trigger targets[t]} :: 0 <= t < |pattern| && 0 <= x + pattern[t].col < numColumns && 0 <= y + pattern[t].row ==>
              ColumnOf(numColumns, targets[t]) == x + pattern[t].col && RowOf(numColumns, targets[t]) == y + pattern[t].row
  {
    seq(|pattern|, t requires 0 <= t < |pattern| =>
      GridToIndex(numColumns, x + pattern[t].col, y + pattern[t].row))
  }

  /** Every position anchor + offset of the pattern lies on the grid. */
  predicate PatternFits(numColumns: int, numRows: int, x: int, y: int, pattern: seq<Offset>)
  {
    forall t :: 0 <= t < |pattern| ==>
      InGrid(numColumns, numRows, x + pattern[t].col, y + pattern[t].row)
  }

  /** When a pattern fits, every index it writes lies inside the array. */
  lemma {:induction false} FittingTargetsInArray(numColumns: int, numRows: int, x: int, y: int, pattern: seq<Offset>)
    requires numColumns > 0 && numRows > 0 && PatternFits(numColumns, numRows, x, y, pattern)
    ensures forall k :: k in StampTargets(numColumns, x, y, pattern) ==> 0 <= k < numColumns * numRows
  {
    var targets := StampTargets(numColumns, x, y, pattern);
    forall t | 0 <= t < |targets|
      ensures 0 <= targets[t] < numColumns * numRows
    {
      GridToIndexInRange(numColumns, numRows, x + pattern[t].col, y + pattern[t].row);
    }
  }

  /** Without a bounds check, a glider anchored in column 0 is accepted:
      its offset (2, -1) lies left of the grid, yet every index written is
      inside the array, and that offset's index is the one of the last cell
      of the row below the anchor, on the right edge, where the glider has
      no cell; stamping makes that cell alive whatever it was before. */
  lemma {:induction false} GliderWrapsAtLeftEdge(numColumns: int, numRows: int, cells: seq<bool>, y: int)
    requires Shaped(numColumns, numRows, cells)
    requires numColumns >= 3 && 0 <= y && y + 2 < numRows
    ensures !PatternFits(numColumns, numRows, 0, y, Glider)
    ensures forall k :: k in StampTargets(numColumns, 0, y, Glider) ==> 0 <= k < numColumns * numRows
    ensures InGrid(numColumns, numRows, numColumns - 1, y + 1) && Offset(1, numColumns - 1) !in Glider
    ensures StampTargets(numColumns, 0, y, Glider)[4] == GridToIndex(numColumns, numColumns - 1, y + 1)
    ensures AliveAt(numColumns, numRows, Stamp(cells, StampTargets(numColumns, 0, y, Glider)), numColumns - 1, y + 1) == 1
  {
    assert !InGrid(numColumns, numRows, 0 + Glider[4].col, y + Glider[4].row);
    var targets := StampTargets(numColumns, 0, y, Glider);
    assert (y + 2) * numColumns == (y + 1) * numColumns + numColumns;
    GridToIndexInRange(numColumns, numRows, numColumns - 1, y + 1);
    forall t | 0 <= t < 4
      ensures 0 <= targets[t] < numColumns * numRows
    {
      GridToIndexInRange(numColumns, numRows, Glider[t].col, y + Glider[t].row);
    }
  }

  /** The snapshot after setting alive every cell whose index is a target. */
  function Stamp(cells: seq<bool>, targets: seq<int>): (r: seq<bool>)
    ensures |r| == |cells|
    ensures forall k :: 0 <= k < |cells| && cells[k] ==> r[k]
    ensures forall t :: 0 <= t < |targets| && 0 <= targets[t] < |cells| ==> r[targets[t]]
    ensures forall k :: 0 <= k < |cells| && r[k] && !cells[k] ==> k in targets
  {
    seq(|cells|, k requires 0 <= k < |cells| => cells[k] || k in targets)
  }

  /** Stamping a pattern that fits makes alive exactly the positions
      anchor + offset and leaves every other position as it was. */
  lemma {:induction false} StampFitting(numColumns: int, numRows: int, cells: seq<bool>,
                                        x: int, y: int, pattern: seq<Offset>, a: int, b: int)
    requires Shaped(numColumns, numRows, cells) && InGrid(numColumns, numRows, a, b)
    requires PatternFits(numColumns, numRows, x, y, pattern)
    ensures 0 <= GridToIndex(numColumns, a, b) < |cells|
    ensures Stamp(cells, StampTargets(numColumns, x, y, pattern))[GridToIndex(numColumns, a, b)] <==>
            cells[GridToIndex(numColumns, a, b)] ||
            exists t :: 0 <= t < |pattern| && a == x + pattern[t].col && b == y + pattern[t].row
  {
    GridToIndexInRange(numColumns, numRows, a, b);
    var k := GridToIndex(numColumns, a, b);
    var targets := StampTargets(numColumns, x, y, pattern);
    if k in targets {
      var t :| 0 <= t < |targets| && targets[t] == k;
      var c, r := x + pattern[t].col, y + pattern[t].row;
      assert InGrid(numColumns, numRows, c, r);
      assert GridToIndex(numColumns, c, r) == k;
      assert a == c && b == r;
    }
    if exists t :: 0 <= t < |pattern| && a == x + pattern[t].col && b == y + pattern[t].row {
      var t :| 0 <= t < |pattern| && a == x + pattern[t].col && b == y + pattern[t].row;
      assert targets[t] == k;
    }
  }

  /** Stamping the same pattern twice has the effect of stamping it once. */
  lemma StampIdempotent(cells: seq<bool>, targets: seq<int>)
    ensures Stamp(Stamp(cells, targets), targets) == Stamp(cells, targets)
  {
  }
}
