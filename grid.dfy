/**
 * The playfield of the snake game: a grid of 10-pixel cells below a
 * 20-pixel score band, movement with edge wrap, and the fixed barrier
 * (a "9"-shaped block) with the exclusion box kept free of food.
 */
module Grid {
  /** Side of one cell in pixels (snakeSize). */
  const CellSize := 10
  /** Height of the score band at the top of the screen (reservedAreaHeight). */
  const ReservedHeight := 20
  /** Capacity of the body arrays snakeX and snakeY. */
  const MaxLength := 100
  /** Capacity of the red-food arrays. */
  const RedSlots := 10
  /** Distance kept between a food and the barrier's bounding box (margin). */
  const Margin := 50
  /** Origin and bounding box of the barrier (placeBarrier). */
  const BarrierLeft := 80
  const BarrierTop := 100
  const BarrierWidth := 80
  const BarrierHeight := 100
  /** Head cell of a new run (resetGame). */
  const StartX := 120
  const StartY := 160

  /** A screen the model supports: whole cells across, and room below the score band. */
  predicate ScreenOk(w: int, h: int)
  {
    w > 0 && w % CellSize == 0 && h > ReservedHeight && h % CellSize == 0
  }

  /** (x, y) is the top-left corner of a cell of the playfield. */
  predicate OnGrid(x: int, y: int, w: int, h: int)
  {
    x % CellSize == 0 && 0 <= x < w && y % CellSize == 0 && ReservedHeight <= y < h
  }

  /**
   * Headings 0..3. The source's comments call them up, down, left and right,
   * but 0 adds a cell to y, 1 subtracts one, 2 adds a cell to x and 3 subtracts one.
   */
  predicate IsDirection(d: int)
  {
    0 <= d <= 3
  }

  type Direction = d: int | IsDirection(d)

  /** A snake length the body arrays can hold. */
  type BodyLength = n: int | 1 <= n <= MaxLength witness 1

  /** The exact reverse of a heading: 0 and 1 are opposite, and so are 2 and 3. */
  function Opposite(d: int): (r: int)
    requires IsDirection(d)
    ensures IsDirection(r) && r != d
    ensures (d <= 1) == (r <= 1)
  {
    if d == 0 then 1 else if d == 1 then 0 else if d == 2 then 3 else 2
  }

  /**
   * Horizontal wrap: off the left edge to the last column, off the right edge
   * to column 0. A column already on the screen is kept, and a one-cell
   * overshoot lands on a column again.
   */
  function WrapX(x: int, w: int): (r: int)
    ensures 0 <= x < w ==> r == x
    ensures w > 0 && w % CellSize == 0 && x % CellSize == 0 && -CellSize <= x <= w ==>
      0 <= r < w && r % CellSize == 0
  {
    if x < 0 then w - CellSize else if x >= w then 0 else x
  }

  /**
   * Vertical wrap, with the bottom of the score band as the top edge. A row
   * already on the playfield is kept, and a one-cell overshoot lands on a
   * row of the playfield again.
   */
  function WrapY(y: int, h: int): (r: int)
    ensures ReservedHeight <= y < h ==> r == y
    ensures h > ReservedHeight && h % CellSize == 0 ==> ReservedHeight <= r < h
    ensures h > ReservedHeight && h % CellSize == 0 && y % CellSize == 0 && ReservedHeight - CellSize <= y <= h ==>
      ReservedHeight <= r < h && r % CellSize == 0
  {
    if y < ReservedHeight then h - CellSize else if y >= h then ReservedHeight else y
  }

  /** Where moveSnake puts the head: one cell along the heading, then the edge wrap. */
  function NextHead(x: int, y: int, dir: int, w: int, h: int): (p: (int, int))
    requires ScreenOk(w, h)
    ensures OnGrid(x, y, w, h) ==> OnGrid(p.0, p.1, w, h)
    ensures ReservedHeight <= p.1 < h
    ensures !IsDirection(dir) ==> p == (WrapX(x, w), WrapY(y, h))
    ensures dir <= 1 ==> p.0 == WrapX(x, w)
    ensures dir >= 2 ==> p.1 == WrapY(y, h)
  {
    var nx := if dir == 2 then x + CellSize else if dir == 3 then x - CellSize else x;
    var ny := if dir == 0 then y + CellSize else if dir == 1 then y - CellSize else y;
    (WrapX(nx, w), WrapY(ny, h))
  }

  /**
   * From a playfield cell the head moves exactly one cell along the axis and
   * sign of its heading; only a step off an edge re-enters at the opposite one.
   */
  lemma NextHeadMovesOneCell(x: int, y: int, dir: int, w: int, h: int)
    requires ScreenOk(w, h) && OnGrid(x, y, w, h) && IsDirection(dir)
    ensures dir == 0 ==> NextHead(x, y, dir, w, h) == (x, if y + CellSize < h then y + CellSize else ReservedHeight)
    ensures dir == 1 ==> NextHead(x, y, dir, w, h) == (x, if y > ReservedHeight then y - CellSize else h - CellSize)
    ensures dir == 2 ==> NextHead(x, y, dir, w, h) == (if x + CellSize < w then x + CellSize else 0, y)
    ensures dir == 3 ==> NextHead(x, y, dir, w, h) == (if x > 0 then x - CellSize else w - CellSize, y)
  {
  }

  /**
   * Moving one step and then one step in the opposite heading comes back
   * to the starting cell, across an edge as well: the playfield is a torus.
   */
  lemma NextHeadReversible(x: int, y: int, dir: int, w: int, h: int)
    requires ScreenOk(w, h) && OnGrid(x, y, w, h) && IsDirection(dir)
    ensures var p := NextHead(x, y, dir, w, h);
            NextHead(p.0, p.1, Opposite(dir), w, h) == (x, y)
  {
    assert x <= w - CellSize && y <= h - CellSize;
    assert x < CellSize ==> x == 0;
    assert y < ReservedHeight + CellSize ==> y == ReservedHeight;
  }

  /**
   * The body cells of a snake of length n in the arrays xs and ys, head at
   * index 0, during a run: no two cells coincide, every cell lies below the
   * score band except that the last one may still be the (0, 0) of the
   * initialisers (in the tick the snake grows, the slot it grows into has
   * not been written yet), and every slot from n on still holds (0, 0).
   */
  ghost predicate DistinctBody(xs: seq<int>, ys: seq<int>, n: int)
  {
    |xs| == |ys| && 1 <= n <= |xs| &&
    (forall i :: n <= i < |xs| ==> xs[i] == 0 && ys[i] == 0) &&
    (forall i :: 0 <= i < n ==> ys[i] >= ReservedHeight || (0 < i == n - 1 && xs[i] == 0 && ys[i] == 0)) &&
    (forall i, j :: 0 <= i < j < n ==> xs[i] != xs[j] || ys[i] != ys[j])
  }

  /**
   * One tick of movement keeps the body distinct: every body slot takes the
   * one before it, the slots from the old length on keep their values, the
   * length grows by at most one, and the new head lies below the score band
   * on no other body cell.
   */
  lemma {:induction false} BodyStepKeepsDistinct(xs: seq<int>, ys: seq<int>, n: int, xs': seq<int>, ys': seq<int>, n': int)
    requires DistinctBody(xs, ys, n)
    requires |xs'| == |xs| && |ys'| == |ys| && n <= n' <= n + 1 && n' <= |xs|
    requires forall i :: 1 <= i < n ==> xs'[i] == xs[i - 1] && ys'[i] == ys[i - 1]
    requires forall i :: n <= i < |xs| ==> xs'[i] == xs[i] && ys'[i] == ys[i]
    requires ys'[0] >= ReservedHeight
    requires forall i :: 1 <= i < n' ==> xs'[0] != xs'[i] || ys'[0] != ys'[i]
    ensures DistinctBody(xs', ys', n')
  {
    forall i | 1 <= i < n
      ensures ys'[i] >= ReservedHeight
    {
      assert ys'[i] == ys[i - 1] && i - 1 < n - 1;
    }
    forall i, j | 0 <= i < j < n'
      ensures xs'[i] != xs'[j] || ys'[i] != ys'[j]
    {
      if i > 0 && j < n {
        assert xs'[i] == xs[i - 1] && xs'[j] == xs[j - 1] && ys'[i] == ys[i - 1] && ys'[j] == ys[j - 1];
      } else if i > 0 {
        assert ys'[j] == 0 && ys'[i] >= ReservedHeight;
      }
    }
  }

  /**
   * The barrier's collision footprint at origin (ox, oy): the upper block
   * 80 wide and 60 high (its drawn hole included) and the 10-wide strip
   * below its right-hand side, down to the full height of 100.
   */
  predicate InBarrier(x: int, y: int, ox: int, oy: int)
  {
    (ox <= x < ox + 80 && oy <= y < oy + 60) ||
    (ox + 70 <= x < ox + 80 && oy + 60 <= y < oy + 100)
  }

  /** The open box around the barrier's 80 x 100 bounding box, widened by Margin, where no food goes. */
  predicate InExclusionBox(x: int, y: int, ox: int, oy: int)
  {
    ox - Margin < x < ox + BarrierWidth + Margin && oy - Margin < y < oy + BarrierHeight + Margin
  }

  /**
   * For one and the same origin, every barrier cell lies in the exclusion
   * box, so food placed against the barrier's current origin never lies on it.
   */
  lemma BarrierInsideExclusionBox(x: int, y: int, ox: int, oy: int)
    requires InBarrier(x, y, ox, oy)
    ensures InExclusionBox(x, y, ox, oy)
  {
  }
}
