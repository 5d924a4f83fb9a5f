/** Positions of the flow-field arrows (`render_arrows`, `render_arrow_line`):
    along each axis of length `n` the arrows sit at
    `(0 .. n - step).step_by(step).skip(1)`, i.e. at the positive multiples of
    `step` strictly below `n - step`. Rows are taken from the height, and
    every row repeats the column positions taken from the width. */
module Arrows {
  import opened Geometry

  /** The iterator `(lo .. hi).step_by(step)`. */
  function StepBy(lo: nat, hi: nat, step: nat): (r: seq<nat>)
    requires step >= 1
    decreases hi - lo
  {
    if lo >= hi then [] else [lo] + StepBy(lo + step, hi, step)
  }

  lemma MulSucc(k: nat, step: nat)
    ensures (k + 1) * step == k * step + step
  {
  }

  /** The `k`-th item of `StepBy` is `lo + k * step`, and it is below `hi`. */
  lemma {:induction false} StepByAt(lo: nat, hi: nat, step: nat, k: nat)
    requires step >= 1 && k < |StepBy(lo, hi, step)|
    ensures StepBy(lo, hi, step)[k] == lo + k * step < hi
    decreases k
  {
    if k > 0 {
      StepByAt(lo + step, hi, step, k - 1);
      MulSucc(k - 1, step);
    }
  }

  /** `StepBy` stops only once the next multiple would reach `hi`. */
  lemma {:induction false} StepByLength(lo: nat, hi: nat, step: nat)
    requires step >= 1
    ensures lo + |StepBy(lo, hi, step)| * step >= hi
    decreases hi - lo
  {
    if lo < hi {
      StepByLength(lo + step, hi, step);
      MulSucc(|StepBy(lo + step, hi, step)|, step);
    }
  }

  /** The iterator adaptor `skip(1)`. */
  function Skip1(s: seq<nat>): seq<nat>
  {
    if s == [] then [] else s[1..]
  }

  /** Arrow positions along an axis of length `n`. The source computes
      `n - step` on `usize` and calls `step_by(step)`, which panics on zero,
      so `n >= step >= 1` is its precondition. */
  function ArrowPositions(n: nat, step: nat): seq<nat>
    requires 1 <= step <= n
  {
    Skip1(StepBy(0, n - step, step))
  }

  /** The `k`-th arrow position is `(k + 1) * step`, every position is below
      `n - step`, and no further multiple of `step` fits below `n - step`. */
  lemma {:induction false} ArrowPositionsShape(n: nat, step: nat)
    requires 1 <= step <= n
    ensures forall k :: 0 <= k < |ArrowPositions(n, step)| ==>
      ArrowPositions(n, step)[k] == (k + 1) * step < n - step
    ensures |ArrowPositions(n, step)| > 0 ==> |ArrowPositions(n, step)| * step < n - step
    ensures (|ArrowPositions(n, step)| + 1) * step >= n - step
  {
    var all := StepBy(0, n - step, step);
    StepByLength(0, n - step, step);
    var r := ArrowPositions(n, step);
    if all != [] {
      assert r == all[1..];
      forall k | 0 <= k < |r|
        ensures r[k] == (k + 1) * step < n - step
      {
        assert r[k] == all[k + 1];
        StepByAt(0, n - step, step, k + 1);
      }
      if |r| > 0 {
        StepByAt(0, n - step, step, |r|);
      }
    }
  }

  lemma MulMono(a: nat, b: nat, step: nat)
    ensures a <= b ==> a * step <= b * step
  {
  }

  lemma MulSign(d: int, step: nat)
    ensures d >= 1 ==> d * step >= step
    ensures d <= -1 ==> d * step <= -(step as int)
  {
  }

  /** A multiple of `step` leaves no remainder. */
  lemma MultipleMod(m: nat, step: nat)
    requires step >= 1
    ensures (m * step) % step == 0 && (m * step) / step == m
  {
    var v := m * step;
    var q, r := v / step, v % step;
    assert v == q * step + r;
    assert (m - q) * step == r;
    MulSign(m - q, step);
  }

  /** A positive multiple of `step` below `(len + 1) * step` is one of the
      multiples `1 * step … len * step`. */
  lemma MultipleIndex(v: nat, step: nat, len: nat)
    requires step >= 1 && v % step == 0 && v > 0
    requires v < (len + 1) * step
    ensures 1 <= v / step <= len && (v / step) * step == v
  {
    var m := v / step;
    assert v == m * step;
    MulMono(len + 1, m, step);
  }

  /** Membership in both directions: `v` is an arrow position exactly when it
      is a positive multiple of `step` below `n - step`. */
  lemma {:induction false} ArrowPositionsMembers(n: nat, step: nat, v: nat)
    requires 1 <= step <= n
    ensures v in ArrowPositions(n, step) <==>
      (0 < v < n - step && v % step == 0)
  {
    var r := ArrowPositions(n, step);
    ArrowPositionsShape(n, step);
    if v in r {
      var k :| 0 <= k < |r| && r[k] == v;
      MultipleMod(k + 1, step);
    }
    if 0 < v < n - step && v % step == 0 {
      MultipleIndex(v, step, |r|);
      assert r[v / step - 1] == v;
    }
  }

  /** On the initial 500 × 500 canvas with step 15, each axis carries the 32
      positions 15, 30, …, 480. */
  lemma InitialCanvasPositions()
    ensures |ArrowPositions(500, 15)| == 32
    ensures ArrowPositions(500, 15)[0] == 15 && ArrowPositions(500, 15)[31] == 480
  {
    var r := ArrowPositions(500, 15);
    ArrowPositionsShape(500, 15);
  }

  /** `render_arrow_line(y)`: one arrow per column position, left to right;
      the row holds a cell exactly when the cell lies on row `y` in one of
      the columns. */
  function ArrowLine(xs: seq<nat>, y: nat): (line: seq<UsizePoint>)
    ensures |line| == |xs|
    ensures forall p :: p in line <==> p.x in xs && p.y == y
  {
    if xs == [] then []
    else
      var init := xs[..|xs| - 1];
      assert xs == init + [xs[|xs| - 1]];
      ArrowLine(init, y) + [UsizePoint(xs[|xs| - 1], y)]
  }

  /** The rows of `render_arrows` concatenated, top to bottom. */
  function Rows(xs: seq<nat>, ys: seq<nat>): seq<UsizePoint>
  {
    if ys == [] then [] else Rows(xs, ys[..|ys| - 1]) + ArrowLine(xs, ys[|ys| - 1])
  }

  /** The rows together hold one arrow per column and row position. */
  lemma {:induction false} RowsLength(xs: seq<nat>, ys: seq<nat>)
    ensures |Rows(xs, ys)| == |ys| * |xs|
  {
    if ys != [] {
      var init := ys[..|ys| - 1];
      RowsLength(xs, init);
      MulSucc(|init|, |xs|);
    }
  }

  /** A cell is drawn exactly when its column and its row are both arrow
      positions. */
  lemma {:induction false} RowsShape(xs: seq<nat>, ys: seq<nat>)
    ensures forall p :: p in Rows(xs, ys) <==> (p.x in xs && p.y in ys)
  {
    if ys != [] {
      var init, y := ys[..|ys| - 1], ys[|ys| - 1];
      RowsShape(xs, init);
      assert ys == init + [y];
      var line := ArrowLine(xs, y);
      assert Rows(xs, ys) == Rows(xs, init) + line;
      forall p
        ensures p in Rows(xs, ys) <==> (p.x in xs && p.y in ys)
      {
        assert p in Rows(xs, ys) <==> p in Rows(xs, init) || p in line;
        assert p.y in ys <==> p.y in init || p.y == y;
      }
    }
  }

  /** The cells `render_arrows` draws an arrow at, in drawing order. */
  function ArrowGrid(width: nat, height: nat, step: nat): seq<UsizePoint>
    requires 1 <= step <= width && 1 <= step <= height
  {
    Rows(ArrowPositions(width, step), ArrowPositions(height, step))
  }

  /** The arrow grid is the full product of the two axes' positions: a cell
      carries an arrow exactly when both of its coordinates are positive
      multiples of `step` below `width - step` and `height - step`. */
  lemma {:induction false} ArrowGridMembers(width: nat, height: nat, step: nat, p: UsizePoint)
    requires 1 <= step <= width && 1 <= step <= height
    ensures |ArrowGrid(width, height, step)| ==
      |ArrowPositions(width, step)| * |ArrowPositions(height, step)|
    ensures p in ArrowGrid(width, height, step) <==>
      (0 < p.x < width - step && p.x % step == 0 &&
       0 < p.y < height - step && p.y % step == 0)
  {
    RowsLength(ArrowPositions(width, step), ArrowPositions(height, step));
    RowsShape(ArrowPositions(width, step), ArrowPositions(height, step));
    ArrowPositionsMembers(width, step, p.x);
    ArrowPositionsMembers(height, step, p.y);
  }
}
