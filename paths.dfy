/** The flow-field paths: `Model::render_path` traces one polyline from a
    start cell, and `Model::render_paths` starts one path at every border
    index and then `num_paths` more at random cells that no earlier path has
    visited.

    The flow field itself (`angle_at_rad`, its trigonometry and the step
    length) is the parameter `advance`: `advance(q)` is the point one step
    from `q` along the field's direction at `q`. */
module PathTracer {
  import opened Geometry
  import opened Sampler
  import opened Border
  import opened CirclePacker

  /** Number of steps of every path: `(width + height) / 200`. */
  function PathLength(width: nat, height: nat): nat
  {
    (width + height) / 200
  }

  /** The polyline after `n` steps of the fold: the start followed by one
      advanced point per step. */
  function Trace(start: Point, advance: Point -> Point, n: nat): (path: seq<Point>)
    ensures |path| == n + 1
  {
    if n == 0 then [start]
    else
      var prev := Trace(start, advance, n - 1);
      prev + [advance(prev[n - 1])]
  }

  /** A trace begins at its start, and each point is one step of the field
      from the one before it. */
  lemma {:induction false} TraceShape(start: Point, advance: Point -> Point, n: nat)
    ensures Trace(start, advance, n)[0] == start
    ensures forall k :: 0 <= k < n ==> Trace(start, advance, n)[k + 1] == advance(Trace(start, advance, n)[k])
  {
    if n > 0 {
      TraceShape(start, advance, n - 1);
      var prev := Trace(start, advance, n - 1);
      assert Trace(start, advance, n) == prev + [advance(prev[n - 1])];
    }
  }

  /** Those two facts determine the path: any sequence of the right length
      that starts at `start` and follows the field is the trace. */
  lemma {:induction false} TraceUnique(start: Point, advance: Point -> Point, path: seq<Point>)
    requires |path| >= 1 && path[0] == start
    requires forall k :: 0 <= k < |path| - 1 ==> path[k + 1] == advance(path[k])
    ensures path == Trace(start, advance, |path| - 1)
  {
    var n := |path| - 1;
    if n > 0 {
      var init := path[..n];
      TraceUnique(start, advance, init);
      assert path == init + [advance(init[n - 1])];
    }
  }

  /** `Model::render_path`: the start cell as a plane point, followed by
      `PathLength` steps along the field. */
  method RenderPath(width: nat, height: nat, p: UsizePoint, advance: Point -> Point)
    returns (path: seq<Point>)
    ensures path == Trace(ToPoint(p), advance, PathLength(width, height))
    ensures |path| == PathLength(width, height) + 1 && path[0] == ToPoint(p)
    ensures forall k :: 0 <= k < |path| - 1 ==> path[k + 1] == advance(path[k])
  {
    var start := ToPoint(p);
    var length := (width + height) / 200;
    path := [start];
    var last := start;
    for i := 0 to length
      invariant path == Trace(start, advance, i)
      invariant last == path[i]
    {
      var next := advance(last);
      path := path + [next];
      last := next;
    }
    TraceShape(start, advance, length);
  }

  /** Largest `u32`. */
  const U32Max: nat := 0xFFFF_FFFF

  /** The float-to-integer cast `v as u32`: truncation toward zero, with
      negative values going to 0 and values past the range to `U32Max`. */
  function AsU32(v: real): (n: nat)
    ensures n <= U32Max
    ensures v <= 0.0 ==> n == 0
    ensures v >= U32Max as real ==> n == U32Max
    ensures 0.0 <= v < U32Max as real ==> n as real <= v < n as real + 1.0
  {
    if v <= 0.0 then 0 else if v >= U32Max as real then U32Max else v.Floor
  }

  /** The integer cast `n as u32`: the low 32 bits. */
  function WrapU32(n: nat): (m: nat)
    ensures m <= n && m <= U32Max
    ensures n <= U32Max ==> m == n
  {
    n % 0x1_0000_0000
  }

  /** The cell a path point falls into after both casts. */
  function CellOf(q: Point): UsizePoint
  {
    UsizePoint(AsU32(q.x), AsU32(q.y))
  }

  /** The test `x < self.width as u32 && y < self.height as u32`. */
  predicate Visible(q: Point, width: nat, height: nat)
  {
    CellOf(q).x < WrapU32(width) && CellOf(q).y < WrapU32(height)
  }

  /** The cells pushed onto `all_points` for one path, in path order. */
  function VisibleCells(path: seq<Point>, width: nat, height: nat): (cells: seq<UsizePoint>)
  {
    if path == [] then []
    else
      var prev := VisibleCells(path[..|path| - 1], width, height);
      var q := path[|path| - 1];
      if Visible(q, width, height) then prev + [CellOf(q)] else prev
  }

  /** Both directions: a cell is recorded for a path exactly when some point
      of the path casts into it and passes the visibility test; every
      recorded cell therefore lies on the canvas. */
  lemma {:induction false} VisibleCellsSpec(path: seq<Point>, width: nat, height: nat, c: UsizePoint)
    ensures c in VisibleCells(path, width, height) <==>
      exists k :: 0 <= k < |path| && Visible(path[k], width, height) && CellOf(path[k]) == c
    ensures c in VisibleCells(path, width, height) ==> InBounds(c, width, height)
  {
    if path != [] {
      var init, q := path[..|path| - 1], path[|path| - 1];
      VisibleCellsSpec(init, width, height, c);
      if exists k :: 0 <= k < |path| && Visible(path[k], width, height) && CellOf(path[k]) == c {
        var k :| 0 <= k < |path| && Visible(path[k], width, height) && CellOf(path[k]) == c;
        if k < |path| - 1 {
          assert init[k] == path[k];
        }
      }
      if c in VisibleCells(init, width, height) {
        var k :| 0 <= k < |init| && Visible(init[k], width, height) && CellOf(init[k]) == c;
        assert path[k] == init[k];
      }
    }
  }

  /** The inner loop of `render_paths` that pushes the visible cells of one
      path onto `all_points`. */
  method RecordVisible(allPoints: seq<UsizePoint>, path: seq<Point>, width: nat, height: nat)
    returns (updated: seq<UsizePoint>)
    ensures updated == allPoints + VisibleCells(path, width, height)
  {
    updated := allPoints;
    for i := 0 to |path|
      invariant updated == allPoints + VisibleCells(path[..i], width, height)
    {
      var q := path[i];
      var x := AsU32(q.x);
      var y := AsU32(q.y);
      if x < WrapU32(width) && y < WrapU32(height) {
        updated := updated + [UsizePoint(x, y)];
      }
      assert path[..i + 1][..i] == path[..i];
    }
    assert path[..|path|] == path;
  }

  /** One drawn path: the cell it starts from, its points and its stroke
      colour (the data of one `<path>` element). */
  datatype Stroke = Stroke(start: UsizePoint, path: seq<Point>, color: string)

  /** The content of `all_points` after the given strokes. */
  function Visited(strokes: seq<Stroke>, width: nat, height: nat): seq<UsizePoint>
  {
    if strokes == [] then []
    else Visited(strokes[..|strokes| - 1], width, height) + VisibleCells(strokes[|strokes| - 1].path, width, height)
  }

  /** `all_points` holds the visible cells of every earlier path. */
  lemma {:induction false} VisitedHas(strokes: seq<Stroke>, width: nat, height: nat, j: nat, c: UsizePoint)
    requires j < |strokes| && c in VisibleCells(strokes[j].path, width, height)
    ensures c in Visited(strokes, width, height)
  {
    var n := |strokes|;
    if j < n - 1 {
      VisitedHas(strokes[..n - 1], width, height, j, c);
    }
  }

  /** One stroke is well formed: its path is traced from its start cell,
      its colour is looked up among `circles`, and its start is on the
      canvas. */
  predicate WellFormed(s: Stroke, width: nat, height: nat, advance: Point -> Point,
                       circles: seq<Placed>, inCircle: (Point, Circle, nat) -> bool)
  {
    && s.path == Trace(ToPoint(s.start), advance, PathLength(width, height))
    && s.color == SelectPathColor(s.path, circles, inCircle)
    && InBounds(s.start, width, height)
  }

  /** The stroke `render_paths` draws from start cell `p`: the traced path
      and its colour among `circles`. */
  function StrokeAt(width: nat, height: nat, advance: Point -> Point, circles: seq<Placed>,
                    inCircle: (Point, Circle, nat) -> bool): UsizePoint -> Stroke
  {
    p =>
      var path := Trace(ToPoint(p), advance, PathLength(width, height));
      Stroke(p, path, SelectPathColor(path, circles, inCircle))
  }

  /** The start cell of iteration `i` of `render_paths`: border cell `i`
      while `i < BorderCount`, otherwise what `random_point` draws against
      `allPoints`. */
  function StartAt(width: nat, height: nat, i: nat, allPoints: seq<UsizePoint>, rng: nat -> nat, pos: nat)
    : (Result<UsizePoint>, nat)
    requires width >= 1 && height >= 1
  {
    if i < BorderCount(width, height) then (Ok(BorderPoint(width, height, i)), pos)
    else Sample(width, height, PointExclusion(allPoints), rng, pos)
  }

  /** A start cell lies on the canvas; a border index never panics, takes no
      draw and starts at its border cell; a random index starts outside
      `allPoints` and panics exactly when all 10000 attempts hit
      `allPoints`. */
  lemma StartAtSpec(width: nat, height: nat, i: nat, allPoints: seq<UsizePoint>, rng: nat -> nat, pos: nat)
    requires width >= 1 && height >= 1
    ensures var (r, next) := StartAt(width, height, i, allPoints, rng, pos);
      && (r.Ok? ==> InBounds(r.value, width, height))
      && (i < BorderCount(width, height) ==> r == Ok(BorderPoint(width, height, i)) && next == pos)
      && (i >= BorderCount(width, height) ==>
            && (r.Exhausted? <==> AllAttemptsHit(width, height, rng, pos, allPoints))
            && (r.Ok? ==> r.value !in allPoints))
  {
    if i >= BorderCount(width, height) {
      var excluded := PointExclusion(allPoints);
      SampleSpec(width, height, excluded, rng, pos);
      assert RejectedBetween(width, height, excluded, rng, pos, 0, MaxAttempts)
             == AllAttemptsHit(width, height, rng, pos, allPoints);
    }
  }

  /** One iteration of the `render_paths` fold, as a value: the start cell,
      then the stroke `mk` builds from it, or the panic of `random_point`. */
  function DrawAt(width: nat, height: nat, i: nat, allPoints: seq<UsizePoint>, mk: UsizePoint -> Stroke,
                  rng: nat -> nat, pos: nat): (Result<Stroke>, nat)
    requires width >= 1 && height >= 1
  {
    var (start, next) := StartAt(width, height, i, allPoints, rng, pos);
    match start
    case Exhausted => (Exhausted, next)
    case Ok(p) => (Ok(mk(p)), next)
  }

  /** The loop body of `render_paths`: pick the start cell, trace the path,
      look up its colour. */
  method DrawStroke(width: nat, height: nat, i: nat, allPoints: seq<UsizePoint>, advance: Point -> Point,
                    circles: seq<Placed>, inCircle: (Point, Circle, nat) -> bool, rng: nat -> nat, pos: nat)
    returns (r: Result<Stroke>, next: nat)
    requires width >= 1 && height >= 1
    ensures (r, next) == DrawAt(width, height, i, allPoints, StrokeAt(width, height, advance, circles, inCircle), rng, pos)
  {
    var point;
    next := pos;
    if i < (width + height) * 2 {
      point := BorderPoint(width, height, i);
    } else {
      var sampled;
      sampled, next := RandomPoint(width, height, allPoints, rng, pos);
      if sampled.Exhausted? {
        return Exhausted, next;
      }
      point := sampled.value;
    }
    var item := RenderPath(width, height, point, advance);
    var color := SelectPathColor(item, circles, inCircle);
    r := Ok(Stroke(point, item, color));
  }

  /** What `render_paths` has established after drawing `acc`: every stroke
      is well formed, the first `BorderCount` start at the border walk, and
      each later one starts outside the cells of all strokes before it. */
  predicate Drawn(acc: seq<Stroke>, width: nat, height: nat, advance: Point -> Point,
                  circles: seq<Placed>, inCircle: (Point, Circle, nat) -> bool)
    requires width >= 1 && height >= 1
  {
    && (forall k :: 0 <= k < |acc| ==> WellFormed(acc[k], width, height, advance, circles, inCircle))
    && (forall k :: 0 <= k < |acc| && k < BorderCount(width, height) ==>
          acc[k].start == BorderPoint(width, height, k))
    && (forall k, j :: BorderCount(width, height) <= k < |acc| && 0 <= j < k ==>
          acc[k].start !in VisibleCells(acc[j].path, width, height))
  }

  /** Appending a stroke that starts where `DrawAt` puts it keeps `Drawn`,
      and `all_points` grows by the new path's visible cells. */
  lemma DrawnAppend(acc: seq<Stroke>, s: Stroke, width: nat, height: nat, advance: Point -> Point,
                    circles: seq<Placed>, inCircle: (Point, Circle, nat) -> bool)
    requires width >= 1 && height >= 1
    requires Drawn(acc, width, height, advance, circles, inCircle)
    requires WellFormed(s, width, height, advance, circles, inCircle)
    requires |acc| < BorderCount(width, height) ==> s.start == BorderPoint(width, height, |acc|)
    requires |acc| >= BorderCount(width, height) ==> s.start !in Visited(acc, width, height)
    ensures Drawn(acc + [s], width, height, advance, circles, inCircle)
    ensures Visited(acc + [s], width, height) == Visited(acc, width, height) + VisibleCells(s.path, width, height)
  {
    var n := |acc|;
    var acc' := acc + [s];
    assert acc'[..n] == acc;
    forall k | 0 <= k < |acc'|
      ensures WellFormed(acc'[k], width, height, advance, circles, inCircle)
    {
      if k < n {
        assert acc'[k] == acc[k];
      }
    }
    forall k | 0 <= k < |acc'| && k < BorderCount(width, height)
      ensures acc'[k].start == BorderPoint(width, height, k)
    {
      if k < n {
        assert acc'[k] == acc[k];
      }
    }
    forall k, j | BorderCount(width, height) <= k < |acc'| && 0 <= j < k
      ensures acc'[k].start !in VisibleCells(acc'[j].path, width, height)
    {
      assert acc'[j] == acc[j];
      if k == n && s.start in VisibleCells(acc[j].path, width, height) {
        VisitedHas(acc, width, height, j, s.start);
      }
    }
  }

  /** One iteration of `render_paths` as a step of the fold: from the
      strokes drawn so far and the draw position, the next stroke. */
  function PathStep(width: nat, height: nat, mk: UsizePoint -> Stroke, rng: nat -> nat)
    : (nat, seq<Stroke>, nat) -> (Result<Stroke>, nat)
    requires width >= 1 && height >= 1
  {
    (i, acc, pos) => DrawAt(width, height, i, Visited(acc, width, height), mk, rng, pos)
  }

  /** The fold after its first `n` iterations of `step`: the strokes and the
      next draw position, or the panic of the first iteration that failed. */
  function DrawFrom(step: (nat, seq<Stroke>, nat) -> (Result<Stroke>, nat), pos: nat, n: nat)
    : (Result<seq<Stroke>>, nat)
  {
    if n == 0 then (Ok([]), pos)
    else
      var (prev, mid) := DrawFrom(step, pos, n - 1);
      match prev
      case Exhausted => (Exhausted, mid)
      case Ok(acc) =>
        var (s, next) := step(n - 1, acc, mid);
        match s
        case Exhausted => (Exhausted, next)
        case Ok(stroke) => (Ok(acc + [stroke]), next)
  }

  /** One iteration of the fold, seen from its state after `k` of them. */
  lemma DrawFromStep(step: (nat, seq<Stroke>, nat) -> (Result<Stroke>, nat), pos: nat,
                     k: nat, acc: seq<Stroke>, mid: nat)
    requires DrawFrom(step, pos, k) == (Ok(acc), mid)
    ensures var (s, next) := step(k, acc, mid);
      DrawFrom(step, pos, k + 1) == if s.Ok? then (Ok(acc + [s.value]), next) else (Exhausted, next)
  {
  }

  /** A panic ends the fold: nothing after it changes the outcome. */
  lemma {:induction false} DrawFromSticks(step: (nat, seq<Stroke>, nat) -> (Result<Stroke>, nat), pos: nat,
                                          m: nat, n: nat)
    requires m <= n && DrawFrom(step, pos, m).0.Exhausted?
    ensures DrawFrom(step, pos, n) == DrawFrom(step, pos, m)
    decreases n - m
  {
    if m < n {
      DrawFromSticks(step, pos, m, n - 1);
    }
  }

  /** Iteration `k` is the one that panics: the fold got that far, and the
      step taken from there failed. */
  predicate StepFails(step: (nat, seq<Stroke>, nat) -> (Result<Stroke>, nat), pos: nat, k: nat)
  {
    var (prev, mid) := DrawFrom(step, pos, k);
    prev.Ok? && step(k, prev.value, mid).0.Exhausted?
  }

  /** A panicking fold names the iteration that failed. */
  lemma {:induction false} DrawFromFailIndex(step: (nat, seq<Stroke>, nat) -> (Result<Stroke>, nat),
                                             pos: nat, n: nat)
    returns (k: nat)
    requires DrawFrom(step, pos, n).0.Exhausted?
    ensures k < n && StepFails(step, pos, k)
  {
    if DrawFrom(step, pos, n - 1).0.Exhausted? {
      k := DrawFromFailIndex(step, pos, n - 1);
    } else {
      k := n - 1;
    }
  }

  /** The fold of `n` iterations panics exactly when one of them fails. */
  lemma DrawFromFails(step: (nat, seq<Stroke>, nat) -> (Result<Stroke>, nat), pos: nat, n: nat)
    ensures DrawFrom(step, pos, n).0.Exhausted? <==> exists k :: 0 <= k < n && StepFails(step, pos, k)
  {
    if DrawFrom(step, pos, n).0.Exhausted? {
      var k := DrawFromFailIndex(step, pos, n);
    }
    if exists k :: 0 <= k < n && StepFails(step, pos, k) {
      var k :| 0 <= k < n && StepFails(step, pos, k);
      var (prev, mid) := DrawFrom(step, pos, k);
      DrawFromStep(step, pos, k, prev.value, mid);
      DrawFromSticks(step, pos, k + 1, n);
    }
  }

  /** `random_point` panics at iteration `k` of `render_paths`: the fold
      reached `k` and all 10000 attempts drawn from there hit a cell
      already in `all_points`. */
  predicate PanicsAt(width: nat, height: nat, mk: UsizePoint -> Stroke, rng: nat -> nat, pos: nat, k: nat)
    requires width >= 1 && height >= 1
  {
    var (prev, mid) := DrawFrom(PathStep(width, height, mk, rng), pos, k);
    prev.Ok? && AllAttemptsHit(width, height, rng, mid, Visited(prev.value, width, height))
  }

  /** An iteration of `render_paths` fails exactly when it is a random one
      and `random_point` panics there. */
  lemma PathStepFails(width: nat, height: nat, mk: UsizePoint -> Stroke, rng: nat -> nat, pos: nat, k: nat)
    requires width >= 1 && height >= 1
    ensures StepFails(PathStep(width, height, mk, rng), pos, k) <==>
      BorderCount(width, height) <= k && PanicsAt(width, height, mk, rng, pos, k)
  {
    var (prev, mid) := DrawFrom(PathStep(width, height, mk, rng), pos, k);
    if prev.Ok? {
      var visited := Visited(prev.value, width, height);
      StartAtSpec(width, height, k, visited, rng, mid);
      assert PathStep(width, height, mk, rng)(k, prev.value, mid).0.Exhausted?
             == StartAt(width, height, k, visited, rng, mid).0.Exhausted?;
    }
  }

  /** A finished fold of `n` iterations of `render_paths` holds `n` strokes
      and has established `Drawn`. */
  lemma {:induction false} DrawFromSpec(width: nat, height: nat, advance: Point -> Point, circles: seq<Placed>,
                                        inCircle: (Point, Circle, nat) -> bool, rng: nat -> nat, pos: nat, n: nat)
    requires width >= 1 && height >= 1
    requires DrawFrom(PathStep(width, height, StrokeAt(width, height, advance, circles, inCircle), rng), pos, n).0.Ok?
    ensures var acc := DrawFrom(PathStep(width, height, StrokeAt(width, height, advance, circles, inCircle), rng),
                                pos, n).0.value;
      |acc| == n && Drawn(acc, width, height, advance, circles, inCircle)
  {
    if n > 0 {
      var mk := StrokeAt(width, height, advance, circles, inCircle);
      var step := PathStep(width, height, mk, rng);
      var (prev, mid) := DrawFrom(step, pos, n - 1);
      DrawFromSpec(width, height, advance, circles, inCircle, rng, pos, n - 1);
      var acc := prev.value;
      var visited := Visited(acc, width, height);
      var p := StartAt(width, height, n - 1, visited, rng, mid).0;
      StartAtSpec(width, height, n - 1, visited, rng, mid);
      assert step(n - 1, acc, mid).0 == Ok(mk(p.value));
      DrawnAppend(acc, mk(p.value), width, height, advance, circles, inCircle);
    }
  }

  /** The outcome of `render_paths`: pack the circles, then run the path
      fold for `BorderCount + numPaths` iterations on the same draws. */
  function RenderPathsOutcome(width: nat, height: nat, numPaths: nat, advance: Point -> Point,
                              inCircle: (Point, Circle, nat) -> bool, rng: nat -> nat, pos: nat)
    : (Result<seq<Stroke>>, nat)
    requires width >= 1 && height >= 1
  {
    var (placed, mid) := PlaceCircles(width, height, inCircle, rng, pos, NumCircles);
    match placed
    case Exhausted => (Exhausted, mid)
    case Ok(circles) =>
      DrawFrom(PathStep(width, height, StrokeAt(width, height, advance, circles, inCircle), rng), mid,
               BorderCount(width, height) + numPaths)
  }

  /** What `render_paths` guarantees: when it returns, there are
      `BorderCount + numPaths` strokes satisfying `Drawn` against the packed
      circles; it panics exactly when the circle packer panics or
      `random_point` exhausts its 10000 attempts at some random iteration.
      The border iterations never panic. */
  lemma RenderPathsSpec(width: nat, height: nat, numPaths: nat, advance: Point -> Point,
                        inCircle: (Point, Circle, nat) -> bool, rng: nat -> nat, pos: nat)
    requires width >= 1 && height >= 1
    ensures var r := RenderPathsOutcome(width, height, numPaths, advance, inCircle, rng, pos).0;
      var (placed, mid) := PlaceCircles(width, height, inCircle, rng, pos, NumCircles);
      && (r.Ok? ==>
            && placed.Ok?
            && |r.value| == BorderCount(width, height) + numPaths
            && Drawn(r.value, width, height, advance, placed.value, inCircle))
      && (r.Exhausted? <==>
            placed.Exhausted? ||
            exists k :: BorderCount(width, height) <= k < BorderCount(width, height) + numPaths
                     && PanicsAt(width, height, StrokeAt(width, height, advance, placed.value, inCircle), rng, mid, k))
  {
    var (placed, mid) := PlaceCircles(width, height, inCircle, rng, pos, NumCircles);
    if placed.Ok? {
      var n := BorderCount(width, height) + numPaths;
      var mk := StrokeAt(width, height, advance, placed.value, inCircle);
      var step := PathStep(width, height, mk, rng);
      var drawn := DrawFrom(step, mid, n);
      assert RenderPathsOutcome(width, height, numPaths, advance, inCircle, rng, pos) == drawn;
      DrawFromFails(step, mid, n);
      forall k | 0 <= k < n
        ensures StepFails(step, mid, k) <==>
          BorderCount(width, height) <= k && PanicsAt(width, height, mk, rng, mid, k)
      {
        PathStepFails(width, height, mk, rng, mid, k);
      }
      if drawn.0.Ok? {
        DrawFromSpec(width, height, advance, placed.value, inCircle, rng, mid, n);
      }
    }
  }

  /** The path loop of `render_paths`: `total` iterations, each drawing one
      stroke and pushing its visible cells onto `all_points`. */
  method DrawPaths(width: nat, height: nat, total: nat, advance: Point -> Point, circles: seq<Placed>,
                   inCircle: (Point, Circle, nat) -> bool, rng: nat -> nat, pos: nat)
    returns (r: Result<seq<Stroke>>, next: nat)
    requires width >= 1 && height >= 1
    ensures (r, next) == DrawFrom(PathStep(width, height, StrokeAt(width, height, advance, circles, inCircle), rng),
                                  pos, total)
  {
    var step := PathStep(width, height, StrokeAt(width, height, advance, circles, inCircle), rng);
    var allPoints: seq<UsizePoint> := [];
    var acc: seq<Stroke> := [];
    next := pos;
    for i := 0 to total
      invariant DrawFrom(step, pos, i) == (Ok(acc), next)
      invariant allPoints == Visited(acc, width, height)
    {
      DrawFromStep(step, pos, i, acc, next);
      var stroke;
      stroke, next := DrawStroke(width, height, i, allPoints, advance, circles, inCircle, rng, next);
      if stroke.Exhausted? {
        DrawFromSticks(step, pos, i + 1, total);
        return Exhausted, next;
      }
      assert (acc + [stroke.value])[..|acc|] == acc;
      acc := acc + [stroke.value];
      allPoints := RecordVisible(allPoints, stroke.value.path, width, height);
    }
    r := Ok(acc);
  }

  /** `Model::render_paths`. It first packs the circles used for colouring,
      then draws `BorderCount` paths from the border walk and `numPaths`
      paths from random cells not yet in `all_points`. `numPaths` is
      `(0.05 * (width * height) as f32) as usize` in the source. */
  method RenderPaths(width: nat, height: nat, numPaths: nat, advance: Point -> Point,
                     inCircle: (Point, Circle, nat) -> bool, rng: nat -> nat, pos: nat)
    returns (r: Result<seq<Stroke>>, next: nat)
    requires width >= 1 && height >= 1
    ensures (r, next) == RenderPathsOutcome(width, height, numPaths, advance, inCircle, rng, pos)
  {
    var placed;
    placed, next := Circles(width, height, inCircle, rng, pos);
    if placed.Exhausted? {
      return Exhausted, next;
    }
    r, next := DrawPaths(width, height, BorderCount(width, height) + numPaths, advance, placed.value,
                         inCircle, rng, next);
  }
}
