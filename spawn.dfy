/**
 * Rejection sampling of food cells. The board's random() is modelled as a
 * stream of draws supplied by the caller: each draw is the pair of values
 * the two random() calls of one round return, a column and a row index.
 * A placement consumes draws until one lands outside the exclusion box.
 */
module Spawn {
  import opened Grid

  /** One round of placeFood / placeRedFood: random(0, W/10) and random(2, H/10). */
  datatype Draw = Draw(col: int, row: int)

  /** The values random() can return for a screen of w x h pixels. */
  predicate DrawInRange(d: Draw, w: int, h: int)
  {
    0 <= d.col < w / CellSize && ReservedHeight / CellSize <= d.row < h / CellSize
  }

  predicate DrawsInRange(draws: seq<Draw>, w: int, h: int)
  {
    forall k :: 0 <= k < |draws| ==> DrawInRange(draws[k], w, h)
  }

  /** Pixel coordinates of the cell a draw names. */
  function DrawX(d: Draw): (x: int)
  {
    d.col * CellSize
  }

  function DrawY(d: Draw): (y: int)
  {
    d.row * CellSize
  }

  /** The do-while loop stops on this draw when a barrier origin is (ox, oy). */
  predicate Accepted(d: Draw, ox: int, oy: int)
  {
    !InExclusionBox(DrawX(d), DrawY(d), ox, oy)
  }

  /** A draw in range names a cell of the playfield. */
  lemma DrawnCellOnGrid(d: Draw, w: int, h: int)
    requires ScreenOk(w, h) && DrawInRange(d, w, h)
    ensures OnGrid(DrawX(d), DrawY(d), w, h)
  {
    assert w == (w / CellSize) * CellSize && h == (h / CellSize) * CellSize;
    assert d.col <= w / CellSize - 1 && d.row <= h / CellSize - 1;
  }

  /**
   * On a screen at least 220 pixels wide the last column lies right of the
   * exclusion box for both origins the barrier takes (the initial (0, 0) and
   * placeBarrier's (80, 100)), so the do-while loops can stop.
   */
  lemma LastColumnAccepted(w: int, h: int, ox: int, oy: int)
    requires ScreenOk(w, h) && w >= BarrierLeft + BarrierWidth + Margin + CellSize
    requires (ox, oy) == (0, 0) || (ox, oy) == (BarrierLeft, BarrierTop)
    ensures DrawInRange(Draw(w / CellSize - 1, ReservedHeight / CellSize), w, h)
    ensures Accepted(Draw(w / CellSize - 1, ReservedHeight / CellSize), ox, oy)
  {
    assert DrawX(Draw(w / CellSize - 1, ReservedHeight / CellSize)) == w - CellSize;
  }

  /**
   * The exclusion box protects the barrier only at the origin the food is
   * placed against. In the tick the score reaches 2, drawBarrier has already
   * run at level 1, so the new food is placed against the initial origin
   * (0, 0); on the 240 x 320 screen the cell (130, 100) is then accepted, and
   * the barrier drawn at (80, 100) in the next tick covers it.
   */
  lemma FoodAcceptedUnderLaterBarrier()
    ensures DrawInRange(Draw(13, 10), 240, 320) && Accepted(Draw(13, 10), 0, 0)
    ensures InBarrier(DrawX(Draw(13, 10)), DrawY(Draw(13, 10)), BarrierLeft, BarrierTop)
  {
  }

  /** How many draws from index k on would be accepted. */
  function CountFrom(draws: seq<Draw>, k: nat, ox: int, oy: int): (n: nat)
    decreases |draws| - k
  {
    if k >= |draws| then 0
    else (if Accepted(draws[k], ox, oy) then 1 else 0) + CountFrom(draws, k + 1, ox, oy)
  }

  /**
   * The index of the draw a placement starting at k settles on: the first
   * accepted one. Every earlier draw is rejected, and exactly one accepted
   * draw is used up.
   */
  function FirstAccepted(draws: seq<Draw>, k: nat, ox: int, oy: int): (j: nat)
    requires CountFrom(draws, k, ox, oy) > 0
    ensures k <= j < |draws|
    ensures Accepted(draws[j], ox, oy)
    ensures forall i :: k <= i < j ==> !Accepted(draws[i], ox, oy)
    ensures CountFrom(draws, j + 1, ox, oy) == CountFrom(draws, k, ox, oy) - 1
    decreases |draws| - k
  {
    if Accepted(draws[k], ox, oy) then k else FirstAccepted(draws, k + 1, ox, oy)
  }
}
