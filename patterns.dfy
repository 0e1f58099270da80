/**
 * The pattern library of the Life world: the static table of stampable
 * templates and the cyclic rule by which the wheel handler moves the
 * selected pattern index through that table.
 */
module Patterns {

  /** One entry of a pattern: the source stores it as the pair `[row, col]`;
      `row` is added to the anchor's y and `col` to the anchor's x. */
  datatype Offset = Offset(row: int, col: int)

  /** A straight line of three cells along a row. */
  const Blinker: seq<Offset> := [Offset(0, 0), Offset(0, 1), Offset(0, 2)]

  /** The five-cell glider; its column offset -1 reaches left of the anchor. */
  const Glider: seq<Offset> :=
    [Offset(0, 0), Offset(1, 1), Offset(2, 1), Offset(2, 0), Offset(2, -1)]

  /** The `patterns` table, indexed by the selected pattern index. */
  const PatternTable: seq<seq<Offset>> := [Blinker, Glider]

  /** The table holds two patterns: the blinker, three cells of the anchor's
      row at columns 0 to 2, and the glider, five distinct cells within rows
      0 to 2 and columns -1 to 1 of the anchor. */
  lemma PatternShapes()
    ensures |PatternTable| == 2 && PatternTable[0] == Blinker && PatternTable[1] == Glider
    ensures |Blinker| == 3 && forall t :: 0 <= t < |Blinker| ==> Blinker[t] == Offset(0, t)
    ensures |Glider| == 5
    ensures forall t :: 0 <= t < |Glider| ==> 0 <= Glider[t].row <= 2 && -1 <= Glider[t].col <= 1
    ensures forall s, t :: 0 <= s < t < |Glider| ==> Glider[s] != Glider[t]
  {
  }

  /** The wheel handler's update of the selected pattern index: a positive
      `deltaY` moves forward, anything else moves backward, and both
      directions wrap around the ends of the table. */
  function WheelStep(patternIdx: int, deltaY: int): (r: int)
    ensures 0 <= patternIdx < |PatternTable| ==> 0 <= r < |PatternTable|
    ensures 0 <= patternIdx < |PatternTable| && deltaY > 0 ==>
              r == (patternIdx + 1) % |PatternTable|
    ensures 0 <= patternIdx < |PatternTable| && deltaY <= 0 ==>
              r == (patternIdx - 1) % |PatternTable|
  {
    if deltaY > 0 then
      (if patternIdx == |PatternTable| - 1 then 0 else patternIdx + 1)
    else
      (if patternIdx == 0 then |PatternTable| - 1 else patternIdx - 1)
  }

  /** Scrolling forward wraps from the last pattern to the first, and
      scrolling backward wraps from the first to the last. */
  lemma WheelWraps(deltaY: int)
    ensures deltaY > 0 ==> WheelStep(|PatternTable| - 1, deltaY) == 0
    ensures deltaY <= 0 ==> WheelStep(0, deltaY) == |PatternTable| - 1
  {
  }

  /** A forward scroll followed by a backward one (or the other way round)
      selects the pattern that was selected before. */
  lemma WheelRoundTrip(patternIdx: int, forward: int, backward: int)
    requires 0 <= patternIdx < |PatternTable|
    requires forward > 0 && backward <= 0
    ensures WheelStep(WheelStep(patternIdx, forward), backward) == patternIdx
    ensures WheelStep(WheelStep(patternIdx, backward), forward) == patternIdx
  {
  }
}
