/**
 Grid coordinates and the pixel arithmetic of the quilt layout: the swap
 between (x, y) points and (restricted, unrestricted) cells, the clamped
 number of restricted lines, and the frame of a block in pixels.
 All quantities are integers; the layout's floating-point values are modelled
 by the integers they hold, and every `Int(...)` truncation toward zero is
 written out with TruncDiv.
 */
module Geometry {

  /** A strictly positive integer: cell sizes, block sizes, the restricted extent. */
  type Positive = n: int | 1 <= n witness 1

  /** A grid point in the view's own axes. */
  datatype Point = Point(x: int, y: int)

  /** A grid point in layout axes: the restricted line and the unrestricted (scroll) coordinate. */
  datatype Cell = Cell(res: int, unr: int)

  /** A width and height of at least 1: a block size in grid units, or the cell size in pixels. */
  datatype Size = Size(width: Positive, height: Positive)

  /** A pixel rectangle covering [x, x + width) by [y, y + height). */
  datatype Rect = Rect(x: int, y: int, width: int, height: int)

  /** Edge insets, shrinking a rectangle on each side. */
  datatype Insets = Insets(top: int, left: int, bottom: int, right: int)

  /** A pixel extent (the scrollable content size). */
  datatype Dims = Dims(width: int, height: int)

  /** The swap from the view's axes to layout axes: vertical scrolling restricts x. */
  function ToCell(vertical: bool, p: Point): (c: Cell)
    ensures ToPoint(vertical, c) == p
  {
    if vertical then Cell(p.x, p.y) else Cell(p.y, p.x)
  }

  /** The inverse swap, from layout axes back to the view's axes. */
  function ToPoint(vertical: bool, c: Cell): Point
  {
    if vertical then Point(c.res, c.unr) else Point(c.unr, c.res)
  }

  lemma CellRoundTrip(vertical: bool, c: Cell)
    ensures ToCell(vertical, ToPoint(vertical, c)) == c
  {
  }

  function Max(a: int, b: int): (m: int)
    ensures a <= m && b <= m && (m == a || m == b)
  {
    if a < b then b else a
  }

  predicate NonNegative(p: Point)
  {
    0 <= p.x && 0 <= p.y
  }

  /** The componentwise maximum that the furthest-block-point setter stores. */
  function MaxPoint(a: Point, b: Point): (m: Point)
    ensures a.x <= m.x && b.x <= m.x && (m.x == a.x || m.x == b.x)
    ensures a.y <= m.y && b.y <= m.y && (m.y == a.y || m.y == b.y)
  {
    Point(Max(a.x, b.x), Max(a.y, b.y))
  }

  /** The bottom-right grid point of a block anchored at `o`. */
  function FarCorner(o: Point, sz: Size): Point
  {
    Point(o.x + sz.width - 1, o.y + sz.height - 1)
  }

  /** Integer division truncating toward zero, as Swift's `Int` division and `Int(Double)` do. */
  function TruncDiv(a: int, b: Positive): (q: int)
    ensures 0 <= a ==> 0 <= q && q * b <= a < q * b + b
    ensures a < 0 ==> q <= 0 && q * b - b < a <= q * b
  {
    if 0 <= a then DivBounds(a, b); a / b else DivBounds(-a, b); -((-a) / b)
  }

  lemma DivBounds(n: nat, b: Positive)
    ensures 0 <= n / b && (n / b) * b <= n < (n / b) * b + b
    ensures -(n / b) * b == -((n / b) * b)
  {
    var q, r := n / b, n % b;
    assert n == q * b + r && 0 <= r < b;
  }

  /**
   The number of whole cells that fit in `content`, clamped to at least one:
   the restricted extent of the layout.
   */
  function ClampedCount(content: nat, cell: Positive): Positive
  {
    var fit := content / cell;
    if fit == 0 then 1 else fit
  }

  /**
   When a cell fits, the clamped count is the number of whole cells in the
   content, leaving less than one cell over; otherwise it is one.
   */
  lemma ClampedCountBounds(content: nat, cell: Positive)
    ensures var n := ClampedCount(content, cell);
            (cell <= content ==> n * cell <= content < n * cell + cell) &&
            (content < cell ==> n == 1)
  {
  }

  /**
   The offset that centres a band of `extent` cells in `content` pixels. The
   odd pixel goes after the band when it fits, before it when it overhangs.
   */
  function Padding(content: int, extent: Positive, cell: Positive): (pad: int)
    ensures extent * cell <= content ==> 0 <= pad <= content - (pad + extent * cell) <= pad + 1
    ensures content < extent * cell ==> pad - 1 <= content - (pad + extent * cell) <= pad <= 0
  {
    TruncDiv(content - extent * cell, 2)
  }

  /**
   The pixel frame of a block at grid point `pos`: grid units scaled by the
   cell size, with the centring padding on the restricted axis only.
   */
  function Frame(vertical: bool, pos: Point, sz: Size, cellW: Positive, cellH: Positive,
                 contentW: nat, contentH: nat, extent: Positive): (r: Rect)
    ensures r.width >= cellW && r.height >= cellH
  {
    if vertical then
      Rect(pos.x * cellW + Padding(contentW, extent, cellW), pos.y * cellH,
           sz.width * cellW, sz.height * cellH)
    else
      Rect(pos.x * cellW, pos.y * cellH + Padding(contentH, extent, cellH),
           sz.width * cellW, sz.height * cellH)
  }

  /** The scrollable content size: the full content extent across, one cell past the furthest point along. */
  function ContentSize(vertical: bool, furthest: Point, cellW: Positive, cellH: Positive,
                       contentW: nat, contentH: nat): (d: Dims)
    ensures vertical ==> d.width == contentW && (0 <= furthest.y ==> cellH <= d.height)
    ensures !vertical ==> d.height == contentH && (0 <= furthest.x ==> cellW <= d.width)
  {
    if vertical then Dims(contentW, (furthest.y + 1) * cellH)
    else Dims((furthest.x + 1) * cellW, contentH)
  }

  /** The frame shrunk by the item's insets. */
  function InsetRect(r: Rect, i: Insets): (s: Rect)
    ensures i == Insets(0, 0, 0, 0) ==> s == r
    ensures 0 <= i.left && 0 <= i.right && i.left + i.right <= r.width ==> r.x <= s.x && s.x + s.width <= r.x + r.width
    ensures 0 <= i.top && 0 <= i.bottom && i.top + i.bottom <= r.height ==> r.y <= s.y && s.y + s.height <= r.y + r.height
  {
    Rect(r.x + i.left, r.y + i.top, r.width - i.left - i.right, r.height - i.top - i.bottom)
  }

  /** Two blocks share a grid point. */
  predicate BlocksOverlap(o1: Point, s1: Size, o2: Point, s2: Size)
  {
    o1.x < o2.x + s2.width && o2.x < o1.x + s1.width &&
    o1.y < o2.y + s2.height && o2.y < o1.y + s1.height
  }

  /** Two pixel rectangles share a pixel. */
  predicate RectsOverlap(a: Rect, b: Rect)
  {
    a.x < b.x + b.width && b.x < a.x + a.width &&
    a.y < b.y + b.height && b.y < a.y + a.height
  }

  lemma ScaleStrict(a: int, b: int, c: Positive)
    ensures a < b <==> a * c < b * c
  {
    if a < b {
      assert b * c - a * c == (b - a) * c;
    } else {
      assert a * c - b * c == (a - b) * c;
    }
  }

  lemma ScaleMonotone(a: int, b: int, c: Positive)
    ensures a <= b <==> a * c <= b * c
  {
    ScaleStrict(b, a, c);
  }

  /** Scaling by a positive cell size keeps the order of interval ends. */
  lemma IntervalsScale(o1: int, w1: int, o2: int, w2: int, c: Positive, pad: int)
    ensures (o1 * c + pad < o2 * c + pad + w2 * c) <==> o1 < o2 + w2
  {
    ScaleStrict(o1, o2 + w2, c);
  }

  /**
   Pixel frames overlap exactly when the blocks overlap on the grid, so
   disjoint placements give disjoint frames.
   */
  lemma FramesOverlapIffBlocksOverlap(vertical: bool, o1: Point, s1: Size, o2: Point, s2: Size,
                                      cellW: Positive, cellH: Positive, contentW: nat, contentH: nat,
                                      extent: Positive)
    ensures RectsOverlap(Frame(vertical, o1, s1, cellW, cellH, contentW, contentH, extent),
                         Frame(vertical, o2, s2, cellW, cellH, contentW, contentH, extent))
            <==> BlocksOverlap(o1, s1, o2, s2)
  {
    var padX := if vertical then Padding(contentW, extent, cellW) else 0;
    var padY := if vertical then 0 else Padding(contentH, extent, cellH);
    IntervalsScale(o1.x, s1.width, o2.x, s2.width, cellW, padX);
    IntervalsScale(o2.x, s2.width, o1.x, s1.width, cellW, padX);
    IntervalsScale(o1.y, s1.height, o2.y, s2.height, cellH, padY);
    IntervalsScale(o2.y, s2.height, o1.y, s1.height, cellH, padY);
  }

  /**
   A block lying within restricted lines [0, extent) has a frame inside the
   centred band on the restricted axis, and inside the content when the band fits.
   */
  lemma FrameWithinBand(vertical: bool, pos: Point, sz: Size, cellW: Positive, cellH: Positive,
                        contentW: nat, contentH: nat, extent: Positive)
    requires vertical ==> 0 <= pos.x && pos.x + sz.width <= extent
    requires !vertical ==> 0 <= pos.y && pos.y + sz.height <= extent
    ensures var r := Frame(vertical, pos, sz, cellW, cellH, contentW, contentH, extent);
            if vertical then
              var pad := Padding(contentW, extent, cellW);
              pad <= r.x && r.x + r.width <= pad + extent * cellW &&
              (extent * cellW <= contentW ==> 0 <= r.x && r.x + r.width <= contentW)
            else
              var pad := Padding(contentH, extent, cellH);
              pad <= r.y && r.y + r.height <= pad + extent * cellH &&
              (extent * cellH <= contentH ==> 0 <= r.y && r.y + r.height <= contentH)
  {
    if vertical {
      ScaleMonotone(0, pos.x, cellW);
      ScaleMonotone(pos.x + sz.width, extent, cellW);
      assert pos.x * cellW + sz.width * cellW == (pos.x + sz.width) * cellW;
    } else {
      ScaleMonotone(0, pos.y, cellH);
      ScaleMonotone(pos.y + sz.height, extent, cellH);
      assert pos.y * cellH + sz.height * cellH == (pos.y + sz.height) * cellH;
    }
  }

  /**
   The content size reaches the far edge of every block whose far corner is
   no further than the furthest block point, along the scroll axis.
   */
  lemma ContentCoversFrame(vertical: bool, pos: Point, sz: Size, furthest: Point,
                           cellW: Positive, cellH: Positive, contentW: nat, contentH: nat, extent: Positive)
    requires vertical ==> FarCorner(pos, sz).y <= furthest.y
    requires !vertical ==> FarCorner(pos, sz).x <= furthest.x
    ensures var r := Frame(vertical, pos, sz, cellW, cellH, contentW, contentH, extent);
            var d := ContentSize(vertical, furthest, cellW, cellH, contentW, contentH);
            if vertical then r.y + r.height <= d.height else r.x + r.width <= d.width
  {
    if vertical {
      ScaleMonotone(pos.y + sz.height, furthest.y + 1, cellH);
      assert pos.y * cellH + sz.height * cellH == (pos.y + sz.height) * cellH;
    } else {
      ScaleMonotone(pos.x + sz.width, furthest.x + 1, cellW);
      assert pos.x * cellW + sz.width * cellW == (pos.x + sz.width) * cellW;
    }
  }

  /** Row u, covering pixels [u * cell, (u + 1) * cell), shares a pixel with [origin, origin + length). */
  predicate RowMeets(u: int, cell: Positive, origin: int, length: int)
  {
    u * cell < origin + length && origin < (u + 1) * cell
  }

  /**
   The rows a visible-rectangle query walks, as written: from Int(origin / cell),
   Int(length / cell) + 1 of them. The count ignores where in its first row the
   rectangle starts.
   */
  function SourceRowBand(origin: int, length: int, cell: Positive): (band: (int, int))
    ensures 0 <= length ==> band.0 < band.1
  {
    var start := TruncDiv(origin, cell);
    (start, start + TruncDiv(length, cell) + 1)
  }

  /** The rectangle starting 300 pixels down, 800 high, with 314-pixel cells reaches row 3, which the band leaves out. */
  lemma SourceRowBandMissesRow()
    ensures RowMeets(3, 314, 300, 800)
    ensures SourceRowBand(300, 800, 314) == (0, 3)
  {
  }

  /**
   What the band as written does cover: every row the rectangle reaches that
   starts no more than `length` pixels past the start of the rectangle's
   first row. Rows beyond that, which a rectangle starting partway through
   its first row can still reach, are left out.
   */
  lemma SourceRowBandCovers(origin: int, length: int, cell: Positive, u: int)
    requires 0 <= origin && 0 <= length
    requires RowMeets(u, cell, origin, length) && u * cell <= TruncDiv(origin, cell) * cell + length
    ensures SourceRowBand(origin, length, cell).0 <= u < SourceRowBand(origin, length, cell).1
  {
    var start, rows := TruncDiv(origin, cell), TruncDiv(length, cell);
    ScaleStrict(start, u + 1, cell);
    ScaleStrict(u, start + rows + 1, cell);
    assert (start + rows + 1) * cell == start * cell + (rows + 1) * cell;
  }

  /** The corrected band: from Int(origin / cell) up to and including the row of the rectangle's far edge. */
  function RowBand(origin: int, length: int, cell: Positive): (band: (int, int))
    ensures 0 <= origin && 0 <= length ==> 0 <= band.0 < band.1
  {
    (TruncDiv(origin, cell), TruncDiv(origin + length, cell) + 1)
  }

  /** Every row the rectangle reaches lies in the corrected band. */
  lemma RowBandCovers(origin: int, length: int, cell: Positive, u: int)
    requires 0 <= origin && 0 <= length
    requires RowMeets(u, cell, origin, length)
    ensures RowBand(origin, length, cell).0 <= u < RowBand(origin, length, cell).1
  {
    var start, last := TruncDiv(origin, cell), TruncDiv(origin + length, cell);
    ScaleStrict(start, u + 1, cell);
    ScaleStrict(u, last + 1, cell);
  }

  /**
   A run of rows lo .. lo + h - 1 whose pixels [lo * cell, (lo + h) * cell)
   share a pixel with a rectangle of positive length has a row that the
   rectangle reaches; `RowOfRun` names it.
   */
  function RowOfRun(lo: int, origin: int, cell: Positive): int
  {
    Max(lo, TruncDiv(origin, cell))
  }

  lemma RunMeetsRow(lo: int, h: Positive, cell: Positive, origin: int, length: int)
    requires 0 <= origin && 0 < length
    requires lo * cell < origin + length && origin < lo * cell + h * cell
    ensures lo <= RowOfRun(lo, origin, cell) < lo + h
    ensures RowMeets(RowOfRun(lo, origin, cell), cell, origin, length)
  {
    var f := TruncDiv(origin, cell);
    assert lo * cell + h * cell == (lo + h) * cell;
    ScaleStrict(f, lo + h, cell);
    ScaleMonotone(f, lo, cell);
    assert (f + 1) * cell == f * cell + cell;
    assert (lo + 1) * cell == lo * cell + cell;
  }
}
