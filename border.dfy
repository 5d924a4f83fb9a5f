/** Enumeration of the canvas border (`Model::border_point`): index `i` walks
    the top row, then the bottom row, then the left column, then the right
    column. `render_paths` starts one path at every index below
    `(width + height) * 2`. */
module Border {
  import opened Geometry

  /** A cell on the outermost ring of a `width × height` canvas. */
  predicate OnBorder(p: UsizePoint, width: nat, height: nat)
  {
    p.x == 0 || p.x + 1 == width || p.y == 0 || p.y + 1 == height
  }

  /** Number of indices `render_paths` feeds to `BorderPoint`. */
  function BorderCount(width: nat, height: nat): nat
  {
    (width + height) * 2
  }

  /** The cell for index `i`. The source subtracts one from `width` and
      `height` and divides by both, so both must be positive; every index,
      also one past `BorderCount`, then yields a border cell of the canvas. */
  function BorderPoint(width: nat, height: nat, i: nat): (p: UsizePoint)
    requires width >= 1 && height >= 1
    ensures InBounds(p, width, height)
    ensures OnBorder(p, width, height)
  {
    UsizePoint(
      if i < 2 * width then i % width
      else if i < 2 * width + height then 0
      else width - 1,
      if i < width then 0
      else if i < 2 * width then height - 1
      else (i - 2 * width) % height)
  }

  lemma ModOfSmall(a: nat, n: nat)
    requires a < n
    ensures a % n == a
  {
  }

  lemma ModOfShifted(a: nat, n: nat)
    requires n <= a < 2 * n
    ensures a % n == a - n
  {
  }

  /** Each of the four index ranges maps onto its side of the canvas:
      the top row left to right, the bottom row left to right, the left
      column top to bottom and the right column top to bottom. */
  lemma {:induction false} BorderPointRanges(width: nat, height: nat, i: nat)
    requires width >= 1 && height >= 1
    ensures i < width ==> BorderPoint(width, height, i) == UsizePoint(i, 0)
    ensures width <= i < 2 * width ==>
      BorderPoint(width, height, i) == UsizePoint(i - width, height - 1)
    ensures 2 * width <= i < 2 * width + height ==>
      BorderPoint(width, height, i) == UsizePoint(0, i - 2 * width)
    ensures 2 * width + height <= i < BorderCount(width, height) ==>
      BorderPoint(width, height, i) == UsizePoint(width - 1, i - 2 * width - height)
  {
    if i < width {
      ModOfSmall(i, width);
    } else if i < 2 * width {
      ModOfShifted(i, width);
    } else if i < 2 * width + height {
      ModOfSmall(i - 2 * width, height);
    } else if i < BorderCount(width, height) {
      ModOfShifted(i - 2 * width, height);
    }
  }

  /** An index that reaches border cell `p`: the inverse direction of
      `BorderPoint` on the range `render_paths` walks. */
  function BorderIndex(width: nat, height: nat, p: UsizePoint): nat
    requires width >= 1 && height >= 1
    requires InBounds(p, width, height) && OnBorder(p, width, height)
  {
    if p.y == 0 then p.x
    else if p.y + 1 == height then width + p.x
    else if p.x == 0 then 2 * width + p.y
    else 2 * width + height + p.y
  }

  /** The walk over `0 .. BorderCount` visits every border cell: each one is
      the image of an index in that range. */
  lemma {:induction false} BorderIndexInverts(width: nat, height: nat, p: UsizePoint)
    requires width >= 1 && height >= 1
    requires InBounds(p, width, height) && OnBorder(p, width, height)
    ensures BorderIndex(width, height, p) < BorderCount(width, height)
    ensures BorderPoint(width, height, BorderIndex(width, height, p)) == p
  {
    BorderPointRanges(width, height, BorderIndex(width, height, p));
  }

  /** The set of cells reached by the walk is exactly the border of the
      canvas, in both directions. */
  lemma {:induction false} BorderWalkCoversBorder(width: nat, height: nat, p: UsizePoint)
    requires width >= 1 && height >= 1
    ensures (exists i :: 0 <= i < BorderCount(width, height) && BorderPoint(width, height, i) == p)
        <==> (InBounds(p, width, height) && OnBorder(p, width, height))
  {
    if InBounds(p, width, height) && OnBorder(p, width, height) {
      BorderIndexInverts(width, height, p);
    }
  }

  /** The walk is not injective: the top-left corner is produced both as the
      first cell of the top row and as the first cell of the left column, so
      two paths start there. */
  lemma {:induction false} BorderCornerRepeats(width: nat, height: nat)
    requires width >= 1 && height >= 1
    ensures 0 != 2 * width < BorderCount(width, height)
    ensures BorderPoint(width, height, 0) == BorderPoint(width, height, 2 * width) == UsizePoint(0, 0)
  {
    BorderPointRanges(width, height, 0);
    BorderPointRanges(width, height, 2 * width);
  }
}
