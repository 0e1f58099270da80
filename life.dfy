/**
 * The Life world: a class owning the grid of cells, stored row-major, with
 * the operations of life.js's `World` — grid creation, the boundary query,
 * the double-buffered generation step and pattern stamping. Each state
 * change is proved against the snapshot functions of module Rules.
 */
module Life {
  import opened Patterns
  import opened Rules

  /** A cell of the grid: its fixed position, its liveness, and the scratch
      value `nextAlive` that a step fills in before committing it. */
  datatype Cell = Cell(gridX: int, gridY: int, alive: bool, nextAlive: bool)

  /** The liveness flags of a sequence of cells, in storage order. */
  function AliveFlags(cells: seq<Cell>): (flags: seq<bool>)
    ensures |flags| == |cells|
  {
    seq(|cells|, k requires 0 <= k < |cells| => cells[k].alive)
  }

  /** Each stored cell carries the position its index stands for. */
  predicate RowMajor(numColumns: int, cells: seq<Cell>)
    requires numColumns > 0
  {
    forall k :: 0 <= k < |cells| ==>
      cells[k].gridX == ColumnOf(numColumns, k) && cells[k].gridY == RowOf(numColumns, k)
  }

  /** The cells `createGrid` appends, in the order it appends them: one per
      position, the k-th taking the k-th initial liveness draw. */
  function FreshCells(numColumns: int, numRows: int, initial: seq<bool>): (cells: seq<Cell>)
    requires Shaped(numColumns, numRows, initial)
    ensures |cells| == numColumns * numRows
    ensures RowMajor(numColumns, cells) && AliveFlags(cells) == initial
    ensures forall k :: 0 <= k < |cells| ==> !cells[k].nextAlive
  {
    seq(numColumns * numRows, k requires 0 <= k < numColumns * numRows =>
      Cell(ColumnOf(numColumns, k), RowOf(numColumns, k), initial[k], false))
  }

  /** A fresh grid holds at `GridToIndex(x, y)` the cell for column x and
      row y, with the liveness drawn for that index and no pending value. */
  lemma {:induction false} FreshCellsAt(numColumns: int, numRows: int, initial: seq<bool>, x: int, y: int)
    requires Shaped(numColumns, numRows, initial) && InGrid(numColumns, numRows, x, y)
    ensures 0 <= GridToIndex(numColumns, x, y) < |FreshCells(numColumns, numRows, initial)|
    ensures FreshCells(numColumns, numRows, initial)[GridToIndex(numColumns, x, y)] ==
            Cell(x, y, initial[GridToIndex(numColumns, x, y)], false)
  {
    GridToIndexInRange(numColumns, numRows, x, y);
  }

  /** Appending the cell for column x, row y extends the prefix of
      `FreshCells` that ends just before its index. */
  lemma {:induction false} FreshCellsPrefix(numColumns: int, numRows: int, initial: seq<bool>, x: int, y: int)
    requires Shaped(numColumns, numRows, initial) && InGrid(numColumns, numRows, x, y)
    ensures GridToIndex(numColumns, x, y) < |FreshCells(numColumns, numRows, initial)|
    ensures GridToIndex(numColumns, x, y) < |initial|
    ensures FreshCells(numColumns, numRows, initial)[..GridToIndex(numColumns, x, y) + 1] ==
            FreshCells(numColumns, numRows, initial)[..GridToIndex(numColumns, x, y)] +
            [Cell(x, y, initial[GridToIndex(numColumns, x, y)], false)]
  {
    FreshCellsAt(numColumns, numRows, initial, x, y);
    var cells := FreshCells(numColumns, numRows, initial);
    var k := GridToIndex(numColumns, x, y);
    assert cells[..k + 1] == cells[..k] + [cells[k]];
  }

  /** `cells'` agrees with `cells` in everything but the scratch value
      `nextAlive`. */
  predicate SameButScratch(cells': seq<Cell>, cells: seq<Cell>)
  {
    |cells'| == |cells| &&
    forall k :: 0 <= k < |cells| ==> cells'[k].(nextAlive := false) == cells[k].(nextAlive := false)
  }

  /** The column-major scan of `checkSurrounding` has visited index `k`
      before it reaches column i, row j. */
  predicate VisitedBefore(numColumns: int, k: int, i: int, j: int)
    requires numColumns > 0
  {
    ColumnOf(numColumns, k) < i || (ColumnOf(numColumns, k) == i && RowOf(numColumns, k) < j)
  }

  /** Every cell visited before (i, j) holds its next state as scratch value. */
  predicate ScratchHolds(numColumns: int, cells: seq<Cell>, next: seq<bool>, i: int, j: int)
    requires numColumns > 0 && |next| == |cells|
  {
    forall k :: 0 <= k < |cells| && VisitedBefore(numColumns, k, i, j) ==> cells[k].nextAlive == next[k]
  }

  /** Before the scan starts nothing has been visited. */
  lemma ScratchStart(numColumns: int, numRows: int, cells: seq<Cell>, next: seq<bool>)
    requires numColumns > 0 && |cells| == numColumns * numRows && |next| == |cells|
    ensures ScratchHolds(numColumns, cells, next, 0, 0)
  {
    forall k | 0 <= k < |cells|
      ensures !VisitedBefore(numColumns, k, 0, 0)
    {
      IndexToGrid(numColumns, numRows, k);
    }
  }

  /** Writing the next state of (i, j) extends the visited part by that cell. */
  lemma ScratchExtend(numColumns: int, numRows: int, was: seq<Cell>, cells: seq<Cell>,
                      next: seq<bool>, i: int, j: int)
    requires numColumns > 0 && |was| == numColumns * numRows && |next| == |was|
    requires InGrid(numColumns, numRows, i, j) && ScratchHolds(numColumns, was, next, i, j)
    requires GridToIndex(numColumns, i, j) < |was|
    requires cells == was[GridToIndex(numColumns, i, j) :=
                          was[GridToIndex(numColumns, i, j)].(nextAlive := next[GridToIndex(numColumns, i, j)])]
    ensures ScratchHolds(numColumns, cells, next, i, j + 1)
  {
    forall k | 0 <= k < |cells| && VisitedBefore(numColumns, k, i, j + 1)
      ensures cells[k].nextAlive == next[k]
    {
      IndexToGrid(numColumns, numRows, k);
    }
  }

  /** Finishing a column moves the scan to the top of the next one. */
  lemma ScratchColumnDone(numColumns: int, numRows: int, cells: seq<Cell>, next: seq<bool>, i: int)
    requires numColumns > 0 && |cells| == numColumns * numRows && |next| == |cells|
    requires ScratchHolds(numColumns, cells, next, i, numRows)
    ensures ScratchHolds(numColumns, cells, next, i + 1, 0)
  {
    forall k | 0 <= k < |cells| && VisitedBefore(numColumns, k, i + 1, 0)
      ensures cells[k].nextAlive == next[k]
    {
      IndexToGrid(numColumns, numRows, k);
    }
  }

  /** After the last column every cell holds its next state. */
  lemma ScratchAll(numColumns: int, numRows: int, cells: seq<Cell>, next: seq<bool>)
    requires numColumns > 0 && |cells| == numColumns * numRows && |next| == |cells|
    requires ScratchHolds(numColumns, cells, next, numColumns, 0)
    ensures forall k :: 0 <= k < |cells| ==> cells[k].nextAlive == next[k]
  {
    forall k | 0 <= k < |cells|
      ensures cells[k].nextAlive == next[k]
    {
      IndexToGrid(numColumns, numRows, k);
      assert VisitedBefore(numColumns, k, numColumns, 0);
    }
  }

  /** Two cell sequences that differ at most in `nextAlive` have the same
      liveness flags, and one is row-major when the other is. */
  lemma SameLayoutAndLiveness(numColumns: int, cells: seq<Cell>, cells': seq<Cell>)
    requires numColumns > 0 && RowMajor(numColumns, cells) && SameButScratch(cells', cells)
    ensures RowMajor(numColumns, cells') && AliveFlags(cells') == AliveFlags(cells)
  {
    forall k | 0 <= k < |cells|
      ensures cells'[k].gridX == cells[k].gridX && cells'[k].gridY == cells[k].gridY
      ensures cells'[k].alive == cells[k].alive
    {
      assert cells'[k].(nextAlive := false).alive == cells[k].(nextAlive := false).alive;
    }
  }

  /** The second pass of a step: every cell's scratch value becomes its
      liveness. */
  function Commit(cells: seq<Cell>): (r: seq<Cell>)
    ensures |r| == |cells|
    ensures forall k :: 0 <= k < |cells| ==>
              r[k].alive == cells[k].nextAlive && r[k] == cells[k].(alive := r[k].alive)
  {
    seq(|cells|, k requires 0 <= k < |cells| => cells[k].(alive := cells[k].nextAlive))
  }

  /** Committing scratch values that hold `next`, over a row-major grid,
      yields a row-major grid whose liveness is `next` and whose scratch
      values equal the liveness. */
  lemma {:induction false} CommitScratch(numColumns: int, start: seq<Cell>, cells: seq<Cell>, next: seq<bool>)
    requires numColumns > 0 && RowMajor(numColumns, start) && SameButScratch(cells, start)
    requires |next| == |cells| && forall k :: 0 <= k < |cells| ==> cells[k].nextAlive == next[k]
    ensures RowMajor(numColumns, Commit(cells)) && AliveFlags(Commit(cells)) == next
    ensures forall k :: 0 <= k < |cells| ==> Commit(cells)[k].nextAlive == Commit(cells)[k].alive
  {
    SameLayoutAndLiveness(numColumns, start, cells);
  }

  /** One write of the first pass: the rule's verdict for index k, computed
      from the liveness flags of `cells`, goes into k's scratch value. */
  function MarkNext(numColumns: int, numRows: int, cells: seq<Cell>, k: int): (r: seq<Cell>)
    requires numColumns > 0 && numRows > 0 && |cells| == numColumns * numRows && 0 <= k < |cells|
    ensures SameButScratch(r, cells) && AliveFlags(r) == AliveFlags(cells)
    ensures forall j :: 0 <= j < |cells| && j != k ==> r[j] == cells[j]
    ensures r[k].nextAlive == Step(numColumns, numRows, AliveFlags(cells))[k]
  {
    cells[k := cells[k].(nextAlive :=
      NextState(cells[k].alive,
                NeighbourCount(numColumns, numRows, AliveFlags(cells), ColumnOf(numColumns, k), RowOf(numColumns, k))))]
  }

  /** The first pass of a step, visiting the indices in `order`. */
  function Visit(numColumns: int, numRows: int, cells: seq<Cell>, order: seq<int>): (r: seq<Cell>)
    requires numColumns > 0 && numRows > 0 && |cells| == numColumns * numRows
    requires forall t :: 0 <= t < |order| ==> 0 <= order[t] < |cells|
    ensures SameButScratch(r, cells) && AliveFlags(r) == AliveFlags(cells)
    decreases |order|
  {
    if order == [] then cells
    else MarkNext(numColumns, numRows, Visit(numColumns, numRows, cells, order[..|order| - 1]), order[|order| - 1])
  }

  /** Since the first pass writes only scratch values, every write reads
      the liveness of the grid before the step: whatever the order, a
      visited index holds the rule's verdict and an unvisited one keeps its
      scratch value. */
  lemma {:induction false} VisitReadsOldLiveness(numColumns: int, numRows: int, cells: seq<Cell>, order: seq<int>)
    requires numColumns > 0 && numRows > 0 && |cells| == numColumns * numRows
    requires forall t :: 0 <= t < |order| ==> 0 <= order[t] < |cells|
    ensures SameButScratch(Visit(numColumns, numRows, cells, order), cells)
    ensures AliveFlags(Visit(numColumns, numRows, cells, order)) == AliveFlags(cells)
    ensures forall k :: 0 <= k < |cells| ==>
              Visit(numColumns, numRows, cells, order)[k].nextAlive ==
              if k in order then Step(numColumns, numRows, AliveFlags(cells))[k] else cells[k].nextAlive
    decreases |order|
  {
    if order != [] {
      var prefix := order[..|order| - 1];
      VisitReadsOldLiveness(numColumns, numRows, cells, prefix);
      forall k | 0 <= k < |cells|
        ensures Visit(numColumns, numRows, cells, order)[k].nextAlive ==
                if k in order then Step(numColumns, numRows, AliveFlags(cells))[k] else cells[k].nextAlive
      {
        VisitExtends(numColumns, numRows, cells, order, k);
      }
    }
  }

  /** One more write of the first pass: index k holds the verdict after
      `order` exactly when it did after all but the last visit or when the
      last visit wrote it. */
  lemma {:induction false} VisitExtends(numColumns: int, numRows: int, cells: seq<Cell>, order: seq<int>, k: int)
    requires numColumns > 0 && numRows > 0 && |cells| == numColumns * numRows
    requires forall t :: 0 <= t < |order| ==> 0 <= order[t] < |cells|
    requires order != [] && 0 <= k < |cells|
    requires Visit(numColumns, numRows, cells, order[..|order| - 1])[k].nextAlive ==
             if k in order[..|order| - 1] then Step(numColumns, numRows, AliveFlags(cells))[k] else cells[k].nextAlive
    ensures Visit(numColumns, numRows, cells, order)[k].nextAlive ==
            if k in order then Step(numColumns, numRows, AliveFlags(cells))[k] else cells[k].nextAlive
  {
    var prefix, last := order[..|order| - 1], order[|order| - 1];
    forall t | 0 <= t < |prefix|
      ensures 0 <= prefix[t] < |cells|
    {
      assert prefix[t] == order[t];
    }
    var mid := Visit(numColumns, numRows, cells, prefix);
    var result := Visit(numColumns, numRows, cells, order);
    assert result == MarkNext(numColumns, numRows, mid, last);
    InLastOrBefore(order, k);
    if k == last {
      assert result[k].nextAlive == Step(numColumns, numRows, AliveFlags(mid))[k];
    } else {
      assert result[k] == mid[k];
    }
  }

  /** An element of a non-empty sequence is its last element or occurs in
      the part before it. */
  lemma {:induction false} InLastOrBefore(s: seq<int>, k: int)
    requires s != []
    ensures (k in s) == (k in s[..|s| - 1] || k == s[|s| - 1])
  {
    assert s == s[..|s| - 1] + [s[|s| - 1]];
  }

  /** The outcome of a step does not depend on the order in which the first
      pass visits the cells: any order that visits every index, followed by
      the commit, produces the next generation of the grid before the step. */
  lemma {:induction false} VisitOrderIrrelevant(numColumns: int, numRows: int, cells: seq<Cell>, order: seq<int>)
    requires numColumns > 0 && numRows > 0 && |cells| == numColumns * numRows
    requires forall t :: 0 <= t < |order| ==> 0 <= order[t] < |cells|
    requires forall k :: 0 <= k < |cells| ==> k in order
    ensures AliveFlags(Commit(Visit(numColumns, numRows, cells, order))) ==
            Step(numColumns, numRows, AliveFlags(cells))
  {
    VisitReadsOldLiveness(numColumns, numRows, cells, order);
  }

  /** The result of a bounds-checked stamp. */
  datatype StampOutcome = Stamped | OutOfBounds

  class World {
    const numColumns: int
    const numRows: int
    var grid: seq<Cell>

    /** The grid has one cell per position, stored row-major. */
    ghost predicate Valid()
      reads this
    {
      numColumns > 0 && numRows > 0 &&
      |grid| == numColumns * numRows &&
      RowMajor(numColumns, grid)
    }

    /** The liveness snapshot of the grid. */
    ghost function Snapshot(): (cells: seq<bool>)
      reads this
      requires Valid()
      ensures Shaped(numColumns, numRows, cells)
    {
      AliveFlags(grid)
    }

    /** Builds the world; `initial` supplies the liveness of each cell in
        creation order (the source draws it at random). */
    constructor (numColumns: int, numRows: int, initial: seq<bool>)
      requires Shaped(numColumns, numRows, initial)
      ensures this.numColumns == numColumns && this.numRows == numRows
      ensures Valid() && Snapshot() == initial
      ensures forall k :: 0 <= k < |grid| ==> !grid[k].nextAlive
    {
      this.numColumns := numColumns;
      this.numRows := numRows;
      grid := [];
      new;
      CreateGrid(initial);
      assert grid == FreshCells(numColumns, numRows, initial);
    }

    /** Appends one cell per position, row by row and within a row column by
        column (life.js `createGrid`). */
    method CreateGrid(initial: seq<bool>)
      requires Shaped(numColumns, numRows, initial)
      modifies this
      ensures grid == old(grid) + FreshCells(numColumns, numRows, initial)
    {
      ghost var cellsToAdd := FreshCells(numColumns, numRows, initial);
      ghost var count := 0;
      for i := 0 to numRows
        invariant count == i * numColumns && count <= |cellsToAdd|
        invariant grid == old(grid) + cellsToAdd[..count]
      {
        for j := 0 to numColumns
          invariant count == i * numColumns + j && count <= |cellsToAdd|
          invariant grid == old(grid) + cellsToAdd[..count]
        {
          FreshCellsPrefix(numColumns, numRows, initial, j, i);
          grid := grid + [Cell(j, i, initial[GridToIndex(numColumns, j, i)], false)];
          count := count + 1;
        }
        assert count == (i + 1) * numColumns;
      }
      assert cellsToAdd[..count] == cellsToAdd;
    }

    /** life.js `isAlive`: 0 for every position off the grid (the world has
        a dead border), otherwise 1 or 0 as the cell stored at
        `GridToIndex(x, y)` is alive or not; this is the snapshot query of
        module Rules applied to the grid. */
    function IsAlive(x: int, y: int): (n: int)
      reads this
      requires Valid()
      ensures n == AliveAt(numColumns, numRows, Snapshot(), x, y)
    {
      if x < 0 || x >= numColumns || y < 0 || y >= numRows then 0
      else
        GridToIndexInRange(numColumns, numRows, x, y);
        if grid[GridToIndex(numColumns, x, y)].alive then 1 else 0
    }

    /** `IsAlive(x, y)` answers 1 exactly when the grid holds a live cell
        whose coordinates are (x, y), and 0 otherwise. */
    lemma IsAliveMeansLiveCell(x: int, y: int)
      requires Valid()
      ensures IsAlive(x, y) == 0 || IsAlive(x, y) == 1
      ensures IsAlive(x, y) == 1 <==>
                (exists k :: 0 <= k < |grid| &&
                   grid[k].gridX == x && grid[k].gridY == y && grid[k].alive)
    {
      CellAtCoordinates(x, y);
      if InGrid(numColumns, numRows, x, y) {
        GridToIndexInRange(numColumns, numRows, x, y);
      }
    }

    /** The only cell that carries coordinates (x, y) is the one stored at
        `GridToIndex(x, y)`. */
    lemma CellAtCoordinates(x: int, y: int)
      requires Valid()
      ensures forall k :: 0 <= k < |grid| && grid[k].gridX == x && grid[k].gridY == y ==>
                InGrid(numColumns, numRows, x, y) && k == GridToIndex(numColumns, x, y)
    {
      forall k | 0 <= k < |grid| && grid[k].gridX == x && grid[k].gridY == y
        ensures InGrid(numColumns, numRows, x, y) && k == GridToIndex(numColumns, x, y)
      {
        IndexToGrid(numColumns, numRows, k);
      }
    }

    /** life.js `checkSurrounding`: one generation. The first pass visits the
        grid column by column and writes only `nextAlive`; the second pass
        commits every `nextAlive` into `alive`. */
    method CheckSurrounding()
      requires Valid()
      modifies this
      ensures Valid() && |grid| == |old(grid)|
      ensures Snapshot() == Step(numColumns, numRows, old(Snapshot()))
      ensures forall k :: 0 <= k < |grid| ==> grid[k].nextAlive == grid[k].alive
    {
      ghost var start := grid;
      ghost var before := Snapshot();
      ghost var next := Step(numColumns, numRows, before);
      ScratchStart(numColumns, numRows, grid, next);
      for i := 0 to numColumns
        invariant SameButScratch(grid, start)
        invariant ScratchHolds(numColumns, grid, next, i, 0)
      {
        for j := 0 to numRows
          invariant SameButScratch(grid, start)
          invariant ScratchHolds(numColumns, grid, next, i, j)
        {
          SameLayoutAndLiveness(numColumns, start, grid);
          assert Valid() && Snapshot() == before;
          var numAlive :=
            IsAlive(i - 1, j - 1) +
            IsAlive(i, j - 1) +
            IsAlive(i + 1, j - 1) +
            IsAlive(i - 1, j) +
            IsAlive(i + 1, j) +
            IsAlive(i - 1, j + 1) +
            IsAlive(i, j + 1) +
            IsAlive(i + 1, j + 1);
          assert numAlive == NeighbourCount(numColumns, numRows, before, i, j);

          var currentCell := GridToIndex(numColumns, i, j);
          StepAt(numColumns, numRows, before, i, j);
          assert grid[currentCell].alive == before[currentCell];
          ghost var was := grid;
          if numAlive == 2 {
            grid := grid[currentCell := grid[currentCell].(nextAlive := grid[currentCell].alive)];
          } else if numAlive == 3 {
            grid := grid[currentCell := grid[currentCell].(nextAlive := true)];
          } else {
            grid := grid[currentCell := grid[currentCell].(nextAlive := false)];
          }
          assert grid == was[currentCell := was[currentCell].(nextAlive := next[currentCell])];
          ScratchExtend(numColumns, numRows, was, grid, next, i, j);
        }
        ScratchColumnDone(numColumns, numRows, grid, next, i);
      }
      ScratchAll(numColumns, numRows, grid, next);

      ghost var marked := grid;
      for i := 0 to |grid|
        invariant |grid| == |marked|
        invariant forall k :: 0 <= k < i ==> grid[k] == Commit(marked)[k]
        invariant forall k :: i <= k < |grid| ==> grid[k] == marked[k]
      {
        grid := grid[i := grid[i].(alive := grid[i].nextAlive)];
      }
      assert grid == Commit(marked);
      CommitScratch(numColumns, start, marked, next);
    }

    /** life.js `addPattern`: sets alive the cell at index
        `GridToIndex(x + col, y + row)` for each offset of the pattern, in
        the pattern's order. The code checks no bounds: it needs only each
        such index to be inside the array, and a column offset that leaves
        the grid lands in a neighbouring row. */
    method AddPattern(x: int, y: int, patternIdx: int)
      requires Valid()
      requires 0 <= patternIdx < |PatternTable|
      requires forall k :: k in StampTargets(numColumns, x, y, PatternTable[patternIdx]) ==> 0 <= k < |grid|
      modifies this
      ensures Valid() && |grid| == |old(grid)|
      ensures Snapshot() == Stamp(old(Snapshot()), StampTargets(numColumns, x, y, PatternTable[patternIdx]))
      ensures forall k :: 0 <= k < |grid| ==> grid[k].nextAlive == old(grid[k].nextAlive)
    {
      var pattern := PatternTable[patternIdx];
      ghost var targets := StampTargets(numColumns, x, y, pattern);
      ghost var before := grid;
      for t := 0 to |pattern|
        invariant |grid| == |before|
        invariant forall k :: 0 <= k < |grid| ==>
                    grid[k] == before[k].(alive := before[k].alive || k in targets[..t])
      {
        var coordinates := pattern[t];
        var k := GridToIndex(numColumns, x + coordinates.col, y + coordinates.row);
        assert k == targets[t] && k in targets;
        assert targets[..t + 1] == targets[..t] + [k];
        grid := grid[k := grid[k].(alive := true)];
      }
      assert targets[..|pattern|] == targets;
    }

    /** Stamping with the bounds check `addPattern` lacks: a pattern with
        any position off the grid is rejected and the grid is left exactly
        as it was; a pattern that fits is stamped as `AddPattern` does. */
    method StampPattern(x: int, y: int, patternIdx: int) returns (outcome: StampOutcome)
      requires Valid()
      requires 0 <= patternIdx < |PatternTable|
      modifies this
      ensures Valid() && |grid| == |old(grid)|
      ensures outcome == Stamped <==> PatternFits(numColumns, numRows, x, y, PatternTable[patternIdx])
      ensures outcome == OutOfBounds ==> grid == old(grid)
      ensures outcome == Stamped ==>
                Snapshot() == Stamp(old(Snapshot()), StampTargets(numColumns, x, y, PatternTable[patternIdx]))
      ensures forall k :: 0 <= k < |grid| ==> grid[k].nextAlive == old(grid[k].nextAlive)
    {
      if !PatternFits(numColumns, numRows, x, y, PatternTable[patternIdx]) {
        return OutOfBounds;
      }
      FittingTargetsInArray(numColumns, numRows, x, y, PatternTable[patternIdx]);
      AddPattern(x, y, patternIdx);
      return Stamped;
    }
  }
}
