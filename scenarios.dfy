/**
 * Known Life patterns evolving under the step of module Rules on a grid
 * that is otherwise dead: the 2x2 block is stable, the blinker oscillates
 * with period two, and the glider reappears moved one cell right and one
 * cell down after four generations.
 */
module Scenarios {
  import opened Patterns
  import opened Rules

  /** The 2x2 block. */
  const Block: seq<Offset> := [Offset(0, 0), Offset(0, 1), Offset(1, 0), Offset(1, 1)]

  /** The blinker's other phase: a vertical line through the middle cell. */
  const BlinkerTurned: seq<Offset> := [Offset(-1, 1), Offset(0, 1), Offset(1, 1)]

  /** The glider's phases after one, two and three generations, relative to
      the same anchor as `Glider`. */
  const GliderPhase1: seq<Offset> :=
    [Offset(1, -1), Offset(1, 1), Offset(2, 0), Offset(2, 1), Offset(3, 0)]
  const GliderPhase2: seq<Offset> :=
    [Offset(1, 1), Offset(2, -1), Offset(2, 1), Offset(3, 0), Offset(3, 1)]
  const GliderPhase3: seq<Offset> :=
    [Offset(1, 0), Offset(2, 1), Offset(2, 2), Offset(3, 0), Offset(3, 1)]

  /** Whether (a, b) is anchor (x, y) plus an offset of `shape`. */
  predicate InShape(shape: seq<Offset>, x: int, y: int, a: int, b: int)
  {
    Offset(b - y, a - x) in shape
  }

  function Indicator(p: bool): int
  {
    if p then 1 else 0
  }

  /** No offset occurs twice in the shape. */
  predicate Distinct(shape: seq<Offset>)
  {
    forall i, j :: 0 <= i < j < |shape| ==> shape[i] != shape[j]
  }

  /** The number of Moore neighbours of offset (r, c) that belong to the
      shape, read off the eight positions around it in the order of the
      grid's neighbour count. */
  function ShapeCount(shape: seq<Offset>, r: int, c: int): int
  {
    Indicator(Offset(r - 1, c - 1) in shape) + Indicator(Offset(r - 1, c) in shape) +
    Indicator(Offset(r - 1, c + 1) in shape) + Indicator(Offset(r, c - 1) in shape) +
    Indicator(Offset(r, c + 1) in shape) + Indicator(Offset(r + 1, c - 1) in shape) +
    Indicator(Offset(r + 1, c) in shape) + Indicator(Offset(r + 1, c + 1) in shape)
  }

  /** The same count around the absolute position (a, b) of a shape
      anchored at (x, y). */
  function PlaneCount(shape: seq<Offset>, x: int, y: int, a: int, b: int): (n: int)
    ensures n == ShapeCount(shape, b - y, a - x)
  {
    Indicator(InShape(shape, x, y, a - 1, b - 1)) + Indicator(InShape(shape, x, y, a, b - 1)) +
    Indicator(InShape(shape, x, y, a + 1, b - 1)) + Indicator(InShape(shape, x, y, a - 1, b)) +
    Indicator(InShape(shape, x, y, a + 1, b)) + Indicator(InShape(shape, x, y, a - 1, b + 1)) +
    Indicator(InShape(shape, x, y, a, b + 1)) + Indicator(InShape(shape, x, y, a + 1, b + 1))
  }

  /** Whether offset `o` is one of the eight Moore neighbours of (r, c). */
  predicate Adjacent(o: Offset, r: int, c: int)
  {
    o != Offset(r, c) && r - 1 <= o.row <= r + 1 && c - 1 <= o.col <= c + 1
  }

  /** The same count taken the other way round: over the shape's offsets,
      how many are adjacent to (r, c). */
  function AdjacentCount(shape: seq<Offset>, r: int, c: int): (n: int)
    ensures 0 <= n <= |shape|
  {
    if shape == [] then 0
    else AdjacentCount(shape[..|shape| - 1], r, c) + Indicator(Adjacent(shape[|shape| - 1], r, c))
  }

  lemma MemberOfExtended(s: seq<Offset>, o: Offset, p: Offset)
    requires o !in s
    ensures Indicator(p in s + [o]) == Indicator(p in s) + Indicator(p == o)
  {
    assert (p in s + [o]) == (p in s || p == o);
  }

  lemma AdjacentAsPositions(o: Offset, r: int, c: int)
    ensures Indicator(Adjacent(o, r, c)) ==
      Indicator(Offset(r - 1, c - 1) == o) + Indicator(Offset(r - 1, c) == o) + Indicator(Offset(r - 1, c + 1) == o) +
      Indicator(Offset(r, c - 1) == o) + Indicator(Offset(r, c + 1) == o) +
      Indicator(Offset(r + 1, c - 1) == o) + Indicator(Offset(r + 1, c) == o) + Indicator(Offset(r + 1, c + 1) == o)
  {
  }

  lemma DistinctInit(shape: seq<Offset>)
    requires Distinct(shape) && shape != []
    ensures Distinct(shape[..|shape| - 1]) && shape[|shape| - 1] !in shape[..|shape| - 1]
    ensures shape == shape[..|shape| - 1] + [shape[|shape| - 1]]
  {
  }

  /** For a shape without repeated offsets, counting live neighbours around
      a position and counting the shape's offsets adjacent to it agree. */
  lemma {:induction false} ShapeCountIsAdjacentCount(shape: seq<Offset>, r: int, c: int)
    requires Distinct(shape)
    ensures ShapeCount(shape, r, c) == AdjacentCount(shape, r, c)
  {
    if shape != [] {
      var s, o := shape[..|shape| - 1], shape[|shape| - 1];
      DistinctInit(shape);
      ShapeCountIsAdjacentCount(s, r, c);
      MemberOfExtended(s, o, Offset(r - 1, c - 1));
      MemberOfExtended(s, o, Offset(r - 1, c));
      MemberOfExtended(s, o, Offset(r - 1, c + 1));
      MemberOfExtended(s, o, Offset(r, c - 1));
      MemberOfExtended(s, o, Offset(r, c + 1));
      MemberOfExtended(s, o, Offset(r + 1, c - 1));
      MemberOfExtended(s, o, Offset(r + 1, c));
      MemberOfExtended(s, o, Offset(r + 1, c + 1));
      AdjacentAsPositions(o, r, c);
    }
  }

  /** On the unbounded plane, the rule takes offset (r, c) from its
      membership in `shape` to its membership in `shape'` anchored `dr`
      rows and `dc` columns further on. */
  predicate Evolves(shape: seq<Offset>, shape': seq<Offset>, dr: int, dc: int, r: int, c: int)
  {
    NextState(Offset(r, c) in shape, ShapeCount(shape, r, c)) == (Offset(r - dr, c - dc) in shape')
  }

  /** The same at absolute position (a, b), with `shape` anchored at
      (x, y) and `shape'` at (x', y'). */
  predicate EvolvesAt(shape: seq<Offset>, x: int, y: int, shape': seq<Offset>, x': int, y': int, a: int, b: int)
  {
    NextState(InShape(shape, x, y, a, b), PlaneCount(shape, x, y, a, b)) == InShape(shape', x', y', a, b)
  }

  lemma EvolvesAtPosition(shape: seq<Offset>, shape': seq<Offset>, dr: int, dc: int, x: int, y: int, a: int, b: int)
    requires Evolves(shape, shape', dr, dc, b - y, a - x)
    ensures EvolvesAt(shape, x, y, shape', x + dc, y + dr, a, b)
  {
    assert Offset(b - y - dr, a - x - dc) == Offset(b - (y + dr), a - (x + dc));
  }

  /** The snapshot in which exactly the cells of the shape are alive. */
  function Drawn(numColumns: int, numRows: int, shape: seq<Offset>, x: int, y: int): (cells: seq<bool>)
    requires numColumns > 0 && numRows > 0
    ensures Shaped(numColumns, numRows, cells)
  {
    seq(numColumns * numRows, k requires 0 <= k < numColumns * numRows =>
      InShape(shape, x, y, ColumnOf(numColumns, k), RowOf(numColumns, k)))
  }

  /** A drawn shape that fits the grid reads, at every position, as
      membership in the shape. */
  lemma {:induction false} DrawnAliveAt(numColumns: int, numRows: int, shape: seq<Offset>,
                                        x: int, y: int, a: int, b: int)
    requires numColumns > 0 && numRows > 0 && PatternFits(numColumns, numRows, x, y, shape)
    ensures AliveAt(numColumns, numRows, Drawn(numColumns, numRows, shape, x, y), a, b) ==
            Indicator(InShape(shape, x, y, a, b))
  {
    if InShape(shape, x, y, a, b) {
      var t :| 0 <= t < |shape| && shape[t] == Offset(b - y, a - x);
      assert InGrid(numColumns, numRows, x + shape[t].col, y + shape[t].row);
    }
    if InGrid(numColumns, numRows, a, b) {
      GridToIndexInRange(numColumns, numRows, a, b);
    }
  }

  /** On the grid, the neighbour count of a drawn shape that fits is its
      count on the unbounded plane. */
  lemma {:induction false} DrawnNeighbourCount(numColumns: int, numRows: int, shape: seq<Offset>,
                                               x: int, y: int, a: int, b: int)
    requires numColumns > 0 && numRows > 0 && PatternFits(numColumns, numRows, x, y, shape)
    ensures NeighbourCount(numColumns, numRows, Drawn(numColumns, numRows, shape, x, y), a, b) ==
            PlaneCount(shape, x, y, a, b)
  {
    DrawnAliveAt(numColumns, numRows, shape, x, y, a - 1, b - 1);
    DrawnAliveAt(numColumns, numRows, shape, x, y, a, b - 1);
    DrawnAliveAt(numColumns, numRows, shape, x, y, a + 1, b - 1);
    DrawnAliveAt(numColumns, numRows, shape, x, y, a - 1, b);
    DrawnAliveAt(numColumns, numRows, shape, x, y, a + 1, b);
    DrawnAliveAt(numColumns, numRows, shape, x, y, a - 1, b + 1);
    DrawnAliveAt(numColumns, numRows, shape, x, y, a, b + 1);
    DrawnAliveAt(numColumns, numRows, shape, x, y, a + 1, b + 1);
  }

  /** A plane evolution from `shape` to `shape'` that happens on the grid
      (the first shape fits) is the grid's step. */
  lemma {:induction false} StepDrawn(numColumns: int, numRows: int, shape: seq<Offset>, x: int, y: int,
                                     shape': seq<Offset>, dr: int, dc: int, x': int, y': int)
    requires numColumns > 0 && numRows > 0 && PatternFits(numColumns, numRows, x, y, shape)
    requires x' == x + dc && y' == y + dr
    requires forall r, c :: Evolves(shape, shape', dr, dc, r, c)
    ensures Step(numColumns, numRows, Drawn(numColumns, numRows, shape, x, y)) ==
            Drawn(numColumns, numRows, shape', x', y')
  {
    var cells := Drawn(numColumns, numRows, shape, x, y);
    assert Drawn(numColumns, numRows, shape', x', y') == Drawn(numColumns, numRows, shape', x + dc, y + dr);
    forall k | 0 <= k < |cells|
      ensures Step(numColumns, numRows, cells)[k] == Drawn(numColumns, numRows, shape', x + dc, y + dr)[k]
    {
      var a, b := ColumnOf(numColumns, k), RowOf(numColumns, k);
      DrawnNeighbourCount(numColumns, numRows, shape, x, y, a, b);
      EvolvesAtPosition(shape, shape', dr, dc, x, y, a, b);
    }
  }

  /** Stamping a pattern that fits onto an all-dead grid draws it. */
  lemma {:induction false} StampOnDeadDraws(numColumns: int, numRows: int, cells: seq<bool>,
                                            x: int, y: int, pattern: seq<Offset>)
    requires Shaped(numColumns, numRows, cells) && forall k :: 0 <= k < |cells| ==> !cells[k]
    requires PatternFits(numColumns, numRows, x, y, pattern)
    ensures Stamp(cells, StampTargets(numColumns, x, y, pattern)) == Drawn(numColumns, numRows, pattern, x, y)
  {
    var stamped := Stamp(cells, StampTargets(numColumns, x, y, pattern));
    forall k | 0 <= k < |cells|
      ensures stamped[k] == Drawn(numColumns, numRows, pattern, x, y)[k]
    {
      var a, b := ColumnOf(numColumns, k), RowOf(numColumns, k);
      IndexToGrid(numColumns, numRows, k);
      StampFitting(numColumns, numRows, cells, x, y, pattern, a, b);
      if InShape(pattern, x, y, a, b) {
        var t :| 0 <= t < |pattern| && pattern[t] == Offset(b - y, a - x);
        assert a == x + pattern[t].col && b == y + pattern[t].row;
      }
      if exists t :: 0 <= t < |pattern| && a == x + pattern[t].col && b == y + pattern[t].row {
        var t :| 0 <= t < |pattern| && a == x + pattern[t].col && b == y + pattern[t].row;
        assert pattern[t] == Offset(b - y, a - x);
      }
    }
  }

  /** The neighbour count and the membership of a three-offset shape,
      written out. */
  lemma ThreeOffsets(o0: Offset, o1: Offset, o2: Offset, r: int, c: int)
    ensures AdjacentCount([o0, o1, o2], r, c) ==
      Indicator(Adjacent(o0, r, c)) + Indicator(Adjacent(o1, r, c)) + Indicator(Adjacent(o2, r, c))
    ensures (Offset(r, c) in [o0, o1, o2]) == (Offset(r, c) == o0 || Offset(r, c) == o1 || Offset(r, c) == o2)
  {
    assert [o0, o1, o2][..2] == [o0, o1];
    assert [o0, o1][..1] == [o0];
    assert [o0][..0] == [];
    assert AdjacentCount([o0], r, c) == Indicator(Adjacent(o0, r, c));
    assert AdjacentCount([o0, o1], r, c) == AdjacentCount([o0], r, c) + Indicator(Adjacent(o1, r, c));
  }

  lemma FourOffsets(o0: Offset, o1: Offset, o2: Offset, o3: Offset, r: int, c: int)
    ensures AdjacentCount([o0, o1, o2, o3], r, c) ==
      Indicator(Adjacent(o0, r, c)) + Indicator(Adjacent(o1, r, c)) + Indicator(Adjacent(o2, r, c)) +
      Indicator(Adjacent(o3, r, c))
    ensures (Offset(r, c) in [o0, o1, o2, o3]) ==
      (Offset(r, c) == o0 || Offset(r, c) == o1 || Offset(r, c) == o2 || Offset(r, c) == o3)
  {
    assert [o0, o1, o2, o3][..3] == [o0, o1, o2];
    ThreeOffsets(o0, o1, o2, r, c);
  }

  lemma FiveOffsets(o0: Offset, o1: Offset, o2: Offset, o3: Offset, o4: Offset, r: int, c: int)
    ensures AdjacentCount([o0, o1, o2, o3, o4], r, c) ==
      Indicator(Adjacent(o0, r, c)) + Indicator(Adjacent(o1, r, c)) + Indicator(Adjacent(o2, r, c)) +
      Indicator(Adjacent(o3, r, c)) + Indicator(Adjacent(o4, r, c))
    ensures (Offset(r, c) in [o0, o1, o2, o3, o4]) ==
      (Offset(r, c) == o0 || Offset(r, c) == o1 || Offset(r, c) == o2 || Offset(r, c) == o3 || Offset(r, c) == o4)
  {
    assert [o0, o1, o2, o3, o4][..4] == [o0, o1, o2, o3];
    FourOffsets(o0, o1, o2, o3, r, c);
  }

  /** The pattern shapes have no repeated offsets. */
  lemma ShapesDistinct()
    ensures Distinct(Block) && Distinct(Blinker) && Distinct(BlinkerTurned)
    ensures Distinct(Glider) && Distinct(GliderPhase1) && Distinct(GliderPhase2) && Distinct(GliderPhase3)
  {
  }

  /** On the plane, the block is still life. */
  lemma BlockEvolves(r: int, c: int)
    ensures Evolves(Block, Block, 0, 0, r, c)
  {
    ShapesDistinct();
    ShapeCountIsAdjacentCount(Block, r, c);
    FourOffsets(Offset(0, 0), Offset(0, 1), Offset(1, 0), Offset(1, 1), r, c);
  }

  /** On the plane, the horizontal blinker becomes the vertical one. */
  lemma BlinkerEvolves(r: int, c: int)
    ensures Evolves(Blinker, BlinkerTurned, 0, 0, r, c)
  {
    ShapesDistinct();
    ShapeCountIsAdjacentCount(Blinker, r, c);
    ThreeOffsets(Offset(0, 0), Offset(0, 1), Offset(0, 2), r, c);
    ThreeOffsets(Offset(-1, 1), Offset(0, 1), Offset(1, 1), r, c);
  }

  /** On the plane, the vertical blinker becomes the horizontal one. */
  lemma BlinkerTurnedEvolves(r: int, c: int)
    ensures Evolves(BlinkerTurned, Blinker, 0, 0, r, c)
  {
    ShapesDistinct();
    ShapeCountIsAdjacentCount(BlinkerTurned, r, c);
    ThreeOffsets(Offset(-1, 1), Offset(0, 1), Offset(1, 1), r, c);
    ThreeOffsets(Offset(0, 0), Offset(0, 1), Offset(0, 2), r, c);
  }

  /** On the plane, the glider's first generation. */
  lemma GliderEvolves1(r: int, c: int)
    ensures Evolves(Glider, GliderPhase1, 0, 0, r, c)
  {
    ShapesDistinct();
    ShapeCountIsAdjacentCount(Glider, r, c);
    FiveOffsets(Offset(0, 0), Offset(1, 1), Offset(2, 1), Offset(2, 0), Offset(2, -1), r, c);
    FiveOffsets(Offset(1, -1), Offset(1, 1), Offset(2, 0), Offset(2, 1), Offset(3, 0), r, c);
  }

  /** On the plane, the glider's second generation. */
  lemma GliderEvolves2(r: int, c: int)
    ensures Evolves(GliderPhase1, GliderPhase2, 0, 0, r, c)
  {
    ShapesDistinct();
    ShapeCountIsAdjacentCount(GliderPhase1, r, c);
    FiveOffsets(Offset(1, -1), Offset(1, 1), Offset(2, 0), Offset(2, 1), Offset(3, 0), r, c);
    FiveOffsets(Offset(1, 1), Offset(2, -1), Offset(2, 1), Offset(3, 0), Offset(3, 1), r, c);
  }

  /** On the plane, the glider's third generation. */
  lemma GliderEvolves3(r: int, c: int)
    ensures Evolves(GliderPhase2, GliderPhase3, 0, 0, r, c)
  {
    ShapesDistinct();
    ShapeCountIsAdjacentCount(GliderPhase2, r, c);
    FiveOffsets(Offset(1, 1), Offset(2, -1), Offset(2, 1), Offset(3, 0), Offset(3, 1), r, c);
    FiveOffsets(Offset(1, 0), Offset(2, 1), Offset(2, 2), Offset(3, 0), Offset(3, 1), r, c);
  }

  /** On the plane, the glider's fourth generation restores its first
      phase one row down and one column right. */
  lemma GliderEvolves4(r: int, c: int)
    ensures Evolves(GliderPhase3, Glider, 1, 1, r, c)
  {
    ShapesDistinct();
    ShapeCountIsAdjacentCount(GliderPhase3, r, c);
    FiveOffsets(Offset(1, 0), Offset(2, 1), Offset(2, 2), Offset(3, 0), Offset(3, 1), r, c);
    FiveOffsets(Offset(0, 0), Offset(1, 1), Offset(2, 1), Offset(2, 0), Offset(2, -1), r - 1, c - 1);
  }

  /** A 2x2 block of live cells on an otherwise dead grid is stable. */
  lemma {:induction false} BlockIsStable(numColumns: int, numRows: int, x: int, y: int)
    requires numColumns > 0 && numRows > 0 && PatternFits(numColumns, numRows, x, y, Block)
    ensures Step(numColumns, numRows, Drawn(numColumns, numRows, Block, x, y)) ==
            Drawn(numColumns, numRows, Block, x, y)
  {
    forall r, c ensures Evolves(Block, Block, 0, 0, r, c) {
      BlockEvolves(r, c);
    }
    StepDrawn(numColumns, numRows, Block, x, y, Block, 0, 0, x, y);
  }

  /** The horizontal blinker turns vertical and back again. */
  lemma {:induction false} BlinkerFlips(numColumns: int, numRows: int, x: int, y: int)
    requires numColumns > 0 && numRows > 0
    requires PatternFits(numColumns, numRows, x, y, Blinker)
    requires PatternFits(numColumns, numRows, x, y, BlinkerTurned)
    ensures Step(numColumns, numRows, Drawn(numColumns, numRows, Blinker, x, y)) ==
            Drawn(numColumns, numRows, BlinkerTurned, x, y)
    ensures Step(numColumns, numRows, Drawn(numColumns, numRows, BlinkerTurned, x, y)) ==
            Drawn(numColumns, numRows, Blinker, x, y)
  {
    forall r, c ensures Evolves(Blinker, BlinkerTurned, 0, 0, r, c) {
      BlinkerEvolves(r, c);
    }
    forall r, c ensures Evolves(BlinkerTurned, Blinker, 0, 0, r, c) {
      BlinkerTurnedEvolves(r, c);
    }
    StepDrawn(numColumns, numRows, Blinker, x, y, BlinkerTurned, 0, 0, x, y);
    StepDrawn(numColumns, numRows, BlinkerTurned, x, y, Blinker, 0, 0, x, y);
  }

  /** A blinker stamped on an otherwise dead grid, away from the border,
      is back after two steps. */
  lemma {:induction false} StampedBlinkerHasPeriodTwo(numColumns: int, numRows: int, cells: seq<bool>, x: int, y: int)
    requires Shaped(numColumns, numRows, cells) && forall k :: 0 <= k < |cells| ==> !cells[k]
    requires 0 <= x && x + 2 < numColumns && 1 <= y && y + 1 < numRows
    ensures Step(numColumns, numRows, Step(numColumns, numRows, Stamp(cells, StampTargets(numColumns, x, y, Blinker)))) ==
            Stamp(cells, StampTargets(numColumns, x, y, Blinker))
  {
    StampOnDeadDraws(numColumns, numRows, cells, x, y, Blinker);
    BlinkerFlips(numColumns, numRows, x, y);
  }

  /** Every phase of a glider anchored at (x, y) fits a grid that leaves
      one column to its left, two to its right and three rows below. */
  lemma GliderPhasesFit(numColumns: int, numRows: int, x: int, y: int)
    requires 1 <= x && x + 2 < numColumns && 0 <= y && y + 3 < numRows
    ensures PatternFits(numColumns, numRows, x, y, Glider)
    ensures PatternFits(numColumns, numRows, x, y, GliderPhase1)
    ensures PatternFits(numColumns, numRows, x, y, GliderPhase2)
    ensures PatternFits(numColumns, numRows, x, y, GliderPhase3)
  {
  }

  /** The glider fits wherever its anchor has a column on either side and
      two rows below. */
  lemma GliderFits(numColumns: int, numRows: int, x: int, y: int)
    requires 1 <= x && x + 1 < numColumns && 0 <= y && y + 2 < numRows
    ensures PatternFits(numColumns, numRows, x, y, Glider)
  {
  }

  /** On the grid, the glider's first generation. */
  lemma {:induction false} GliderStep1(numColumns: int, numRows: int, x: int, y: int)
    requires numColumns > 0 && numRows > 0 && PatternFits(numColumns, numRows, x, y, Glider)
    ensures Step(numColumns, numRows, Drawn(numColumns, numRows, Glider, x, y)) ==
            Drawn(numColumns, numRows, GliderPhase1, x, y)
  {
    forall r, c ensures Evolves(Glider, GliderPhase1, 0, 0, r, c) {
      GliderEvolves1(r, c);
    }
    StepDrawn(numColumns, numRows, Glider, x, y, GliderPhase1, 0, 0, x, y);
  }

  /** On the grid, the glider's second generation. */
  lemma {:induction false} GliderStep2(numColumns: int, numRows: int, x: int, y: int)
    requires numColumns > 0 && numRows > 0 && PatternFits(numColumns, numRows, x, y, GliderPhase1)
    ensures Step(numColumns, numRows, Drawn(numColumns, numRows, GliderPhase1, x, y)) ==
            Drawn(numColumns, numRows, GliderPhase2, x, y)
  {
    forall r, c ensures Evolves(GliderPhase1, GliderPhase2, 0, 0, r, c) {
      GliderEvolves2(r, c);
    }
    StepDrawn(numColumns, numRows, GliderPhase1, x, y, GliderPhase2, 0, 0, x, y);
  }

  /** On the grid, the glider's third generation. */
  lemma {:induction false} GliderStep3(numColumns: int, numRows: int, x: int, y: int)
    requires numColumns > 0 && numRows > 0 && PatternFits(numColumns, numRows, x, y, GliderPhase2)
    ensures Step(numColumns, numRows, Drawn(numColumns, numRows, GliderPhase2, x, y)) ==
            Drawn(numColumns, numRows, GliderPhase3, x, y)
  {
    forall r, c ensures Evolves(GliderPhase2, GliderPhase3, 0, 0, r, c) {
      GliderEvolves3(r, c);
    }
    StepDrawn(numColumns, numRows, GliderPhase2, x, y, GliderPhase3, 0, 0, x, y);
  }

  /** On the grid, the glider's fourth generation. */
  lemma {:induction false} GliderStep4(numColumns: int, numRows: int, x: int, y: int)
    requires numColumns > 0 && numRows > 0 && PatternFits(numColumns, numRows, x, y, GliderPhase3)
    ensures Step(numColumns, numRows, Drawn(numColumns, numRows, GliderPhase3, x, y)) ==
            Drawn(numColumns, numRows, Glider, x + 1, y + 1)
  {
    forall r, c ensures Evolves(GliderPhase3, Glider, 1, 1, r, c) {
      GliderEvolves4(r, c);
    }
    StepDrawn(numColumns, numRows, GliderPhase3, x, y, Glider, 1, 1, x + 1, y + 1);
  }

  /** A glider drawn on an otherwise dead grid with room to move is, after
      four steps, the same glider one column right and one row down. */
  lemma {:induction false} GliderMovesDiagonally(numColumns: int, numRows: int, x: int, y: int)
    requires 1 <= x && x + 2 < numColumns && 0 <= y && y + 3 < numRows
    ensures Step(numColumns, numRows, Step(numColumns, numRows, Step(numColumns, numRows,
              Step(numColumns, numRows, Drawn(numColumns, numRows, Glider, x, y))))) ==
            Drawn(numColumns, numRows, Glider, x + 1, y + 1)
  {
    GliderPhasesFit(numColumns, numRows, x, y);
    GliderStep1(numColumns, numRows, x, y);
    GliderStep2(numColumns, numRows, x, y);
    GliderStep3(numColumns, numRows, x, y);
    GliderStep4(numColumns, numRows, x, y);
  }

  /** A glider stamped on an otherwise dead grid, at its anchor or one
      cell down and right of it, is drawn. */
  lemma StampedGliderIsDrawn(numColumns: int, numRows: int, cells: seq<bool>, x: int, y: int)
    requires Shaped(numColumns, numRows, cells) && forall k :: 0 <= k < |cells| ==> !cells[k]
    requires 1 <= x && x + 2 < numColumns && 0 <= y && y + 3 < numRows
    ensures Stamp(cells, StampTargets(numColumns, x, y, Glider)) == Drawn(numColumns, numRows, Glider, x, y)
    ensures Stamp(cells, StampTargets(numColumns, x + 1, y + 1, Glider)) ==
            Drawn(numColumns, numRows, Glider, x + 1, y + 1)
  {
    GliderFits(numColumns, numRows, x, y);
    GliderFits(numColumns, numRows, x + 1, y + 1);
    StampOnDeadDraws(numColumns, numRows, cells, x, y, Glider);
    StampOnDeadDraws(numColumns, numRows, cells, x + 1, y + 1, Glider);
  }

  /** A glider stamped on an otherwise dead grid with room to move is, after
      four steps, the same glider moved one column right and one row down. */
  lemma {:induction false} StampedGliderMovesDiagonally(numColumns: int, numRows: int, cells: seq<bool>, x: int, y: int)
    requires Shaped(numColumns, numRows, cells) && forall k :: 0 <= k < |cells| ==> !cells[k]
    requires 1 <= x && x + 2 < numColumns && 0 <= y && y + 3 < numRows
    ensures Step(numColumns, numRows, Step(numColumns, numRows, Step(numColumns, numRows,
              Step(numColumns, numRows, Stamp(cells, StampTargets(numColumns, x, y, Glider)))))) ==
            Stamp(cells, StampTargets(numColumns, x + 1, y + 1, Glider))
  {
    StampedGliderIsDrawn(numColumns, numRows, cells, x, y);
    GliderMovesDiagonally(numColumns, numRows, x, y);
  }
}
