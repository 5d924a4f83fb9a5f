/** The circle packer (`Model::circles`) and the colour lookup that paths
    make against its output (`Model::select_path_color`).

    `circles` folds over the indices `0 .. 100`. The index picks a tier, and
    the centre is drawn with `gen_random_point` against every circle pushed so
    far, grown by the tier's exclusion distance (the source calls it
    `diameter`). A panic in any draw aborts the fold. */
module CirclePacker {
  import opened Geometry
  import opened Sampler

  /** Number of circles `circles` places. */
  const NumCircles: nat := 100

  /** The fill colour of a path that starts outside every circle. */
  const DefaultPathColor: string := "#669BBC"

  /** Radius, exclusion distance and colour of one tier. */
  datatype Tier = Tier(radius: nat, diameter: nat, color: string)

  /** The tier of the `i`-th circle: ten large, thirty medium, the rest
      small. */
  function TierOf(i: nat): Tier
  {
    if i < 10 then Tier(50, 60, "#E4572E")
    else if i < 40 then Tier(20, 20, "#F3A712")
    else Tier(10, 10, "#A8C686")
  }

  /** Later tiers never have a larger radius, and every tier keeps at least
      its own radius as clearance from the circles already placed. */
  lemma TierOrder(i: nat, j: nat)
    requires i <= j
    ensures TierOf(j).radius <= TierOf(i).radius
    ensures TierOf(i).radius <= TierOf(i).diameter
  {
  }

  /** The circle pushed at index `i` once its centre is known. */
  function PlacedAt(i: nat, center: Point): Placed
  {
    Placed(Circle(center, TierOf(i).radius), TierOf(i).color)
  }

  /** The fold after its first `n` steps: the accumulator and the next draw
      position, or the panic of the first draw that ran out of attempts. */
  function PlaceCircles(width: nat, height: nat, inCircle: (Point, Circle, nat) -> bool,
                        rng: nat -> nat, pos: nat, n: nat): (Result<seq<Placed>>, nat)
    requires width >= 1 && height >= 1
  {
    if n == 0 then (Ok([]), pos)
    else
      var (prev, mid) := PlaceCircles(width, height, inCircle, rng, pos, n - 1);
      match prev
      case Exhausted => (Exhausted, mid)
      case Ok(acc) =>
        var (c, next) := GenPoint(width, height, TierOf(n - 1).diameter, acc, inCircle, rng, mid);
        match c
        case Exhausted => (Exhausted, next)
        case Ok(center) => (Ok(acc + [PlacedAt(n - 1, center)]), next)
  }

  /** A panic ends the fold: nothing after it changes the outcome. */
  lemma {:induction false} ExhaustedSticks(width: nat, height: nat, inCircle: (Point, Circle, nat) -> bool,
                                           rng: nat -> nat, pos: nat, m: nat, n: nat)
    requires width >= 1 && height >= 1 && m <= n
    requires PlaceCircles(width, height, inCircle, rng, pos, m).0.Exhausted?
    ensures PlaceCircles(width, height, inCircle, rng, pos, n) == PlaceCircles(width, height, inCircle, rng, pos, m)
    decreases n - m
  {
    if m < n {
      ExhaustedSticks(width, height, inCircle, rng, pos, m, n - 1);
    }
  }

  /** A fold that finished `n` steps holds `n` circles, and it passed
      through every shorter fold: after `i <= n` steps it held the first `i`
      of them. */
  lemma {:induction false} PlaceCirclesPrefix(width: nat, height: nat, inCircle: (Point, Circle, nat) -> bool,
                                              rng: nat -> nat, pos: nat, n: nat, i: nat)
    requires width >= 1 && height >= 1 && i <= n
    requires PlaceCircles(width, height, inCircle, rng, pos, n).0.Ok?
    ensures |PlaceCircles(width, height, inCircle, rng, pos, n).0.value| == n
    ensures PlaceCircles(width, height, inCircle, rng, pos, i).0.Ok?
    ensures PlaceCircles(width, height, inCircle, rng, pos, i).0.value
            == PlaceCircles(width, height, inCircle, rng, pos, n).0.value[..i]
  {
    if n > 0 {
      var prev := PlaceCircles(width, height, inCircle, rng, pos, n - 1).0;
      PlaceCirclesPrefix(width, height, inCircle, rng, pos, n - 1, if i < n then i else n - 1);
      var cs := PlaceCircles(width, height, inCircle, rng, pos, n).0.value;
      assert cs[..n - 1] == prev.value;
      if i < n {
        assert cs[..i] == prev.value[..i];
      }
    }
  }

  /** Circle `i` of a finished fold: its centre is what `gen_random_point`
      returned when drawn, from the position the fold had reached after `i`
      steps, against exactly the first `i` circles; its radius and colour
      are those of tier `i`. */
  lemma PlaceCirclesAt(width: nat, height: nat, inCircle: (Point, Circle, nat) -> bool,
                       rng: nat -> nat, pos: nat, n: nat, i: nat)
    requires width >= 1 && height >= 1 && i < n
    requires PlaceCircles(width, height, inCircle, rng, pos, n).0.Ok?
    ensures |PlaceCircles(width, height, inCircle, rng, pos, n).0.value| == n
    ensures var cs := PlaceCircles(width, height, inCircle, rng, pos, n).0.value;
      var c := GenPoint(width, height, TierOf(i).diameter, cs[..i], inCircle, rng,
                        PlaceCircles(width, height, inCircle, rng, pos, i).1).0;
      c.Ok? && cs[i] == PlacedAt(i, c.value)
  {
    var cs := PlaceCircles(width, height, inCircle, rng, pos, n).0.value;
    PlaceCirclesPrefix(width, height, inCircle, rng, pos, n, i + 1);
    PlaceCirclesPrefix(width, height, inCircle, rng, pos, n, i);
    assert cs[..i + 1][..i] == cs[..i];
  }

  /** The whole list: a fold that finished `n` steps holds `n` circles, and
      circle `i` has tier `i`'s radius and colour and the centre that
      `gen_random_point` drew for it against the first `i` circles. */
  lemma PlaceCirclesShape(width: nat, height: nat, inCircle: (Point, Circle, nat) -> bool,
                          rng: nat -> nat, pos: nat, n: nat)
    requires width >= 1 && height >= 1
    requires PlaceCircles(width, height, inCircle, rng, pos, n).0.Ok?
    ensures var cs := PlaceCircles(width, height, inCircle, rng, pos, n).0.value;
      && |cs| == n
      && forall i :: 0 <= i < n ==>
           && cs[i].circle.r == TierOf(i).radius && cs[i].color == TierOf(i).color
           && GenPoint(width, height, TierOf(i).diameter, cs[..i], inCircle, rng,
                       PlaceCircles(width, height, inCircle, rng, pos, i).1).0
              == Ok(cs[i].circle.center)
  {
    PlaceCirclesPrefix(width, height, inCircle, rng, pos, n, n);
    forall i | 0 <= i < n
      ensures var cs := PlaceCircles(width, height, inCircle, rng, pos, n).0.value;
        && cs[i].circle.r == TierOf(i).radius && cs[i].color == TierOf(i).color
        && GenPoint(width, height, TierOf(i).diameter, cs[..i], inCircle, rng,
                    PlaceCircles(width, height, inCircle, rng, pos, i).1).0
           == Ok(cs[i].circle.center)
    {
      PlaceCirclesAt(width, height, inCircle, rng, pos, n, i);
    }
  }

  /** What the packing guarantees: every centre is a canvas point that lies
      outside each earlier circle grown by its own tier's exclusion distance,
      and radii never grow along the list. */
  lemma PlaceCirclesClear(width: nat, height: nat, inCircle: (Point, Circle, nat) -> bool,
                          rng: nat -> nat, pos: nat, n: nat)
    requires width >= 1 && height >= 1
    requires PlaceCircles(width, height, inCircle, rng, pos, n).0.Ok?
    ensures var cs := PlaceCircles(width, height, inCircle, rng, pos, n).0.value;
      && (forall i :: 0 <= i < |cs| ==>
            && 0.0 <= cs[i].circle.center.x < width as real
            && 0.0 <= cs[i].circle.center.y < height as real
            && forall j :: 0 <= j < i ==>
                 !inCircle(cs[i].circle.center, cs[j].circle, TierOf(i).diameter))
      && forall i, j :: 0 <= i <= j < |cs| ==> cs[j].circle.r <= cs[i].circle.r
  {
    var cs := PlaceCircles(width, height, inCircle, rng, pos, n).0.value;
    PlaceCirclesPrefix(width, height, inCircle, rng, pos, n, n);
    forall i | 0 <= i < |cs|
      ensures 0.0 <= cs[i].circle.center.x < width as real
      ensures 0.0 <= cs[i].circle.center.y < height as real
      ensures forall j :: 0 <= j < i ==> !inCircle(cs[i].circle.center, cs[j].circle, TierOf(i).diameter)
    {
      PlaceCirclesAt(width, height, inCircle, rng, pos, n, i);
      var mid := PlaceCircles(width, height, inCircle, rng, pos, i).1;
      GenPointSpec(width, height, TierOf(i).diameter, cs[..i], inCircle, rng, mid);
      forall j | 0 <= j < i
        ensures !inCircle(cs[i].circle.center, cs[j].circle, TierOf(i).diameter)
      {
        assert cs[..i][j] == cs[j];
      }
    }
    forall i, j | 0 <= i <= j < |cs|
      ensures cs[j].circle.r <= cs[i].circle.r
    {
      PlaceCirclesPrefix(width, height, inCircle, rng, pos, n, n);
      PlaceCirclesAt(width, height, inCircle, rng, pos, n, i);
      PlaceCirclesAt(width, height, inCircle, rng, pos, n, j);
      TierOrder(i, j);
    }
  }

  /** One step of the fold, seen from the accumulator after `n` steps. */
  lemma PlaceCirclesStep(width: nat, height: nat, inCircle: (Point, Circle, nat) -> bool,
                         rng: nat -> nat, pos: nat, n: nat, acc: seq<Placed>, mid: nat)
    requires width >= 1 && height >= 1
    requires PlaceCircles(width, height, inCircle, rng, pos, n) == (Ok(acc), mid)
    ensures var (c, next) := GenPoint(width, height, TierOf(n).diameter, acc, inCircle, rng, mid);
      PlaceCircles(width, height, inCircle, rng, pos, n + 1) ==
        if c.Ok? then (Ok(acc + [PlacedAt(n, c.value)]), next) else (Exhausted, next)
  {
  }

  /** Step `i` of the fold fails: the fold reached it without a panic, and
      `gen_random_point` panicked there. */
  predicate PackStepFails(width: nat, height: nat, inCircle: (Point, Circle, nat) -> bool,
                          rng: nat -> nat, pos: nat, i: nat)
    requires width >= 1 && height >= 1
  {
    var placed := PlaceCircles(width, height, inCircle, rng, pos, i);
    placed.0.Ok? &&
      GenPoint(width, height, TierOf(i).diameter, placed.0.value, inCircle, rng, placed.1).0.Exhausted?
  }

  /** A panicking fold names the step that failed. */
  lemma {:induction false} PlaceCirclesFailIndex(width: nat, height: nat, inCircle: (Point, Circle, nat) -> bool,
                                                 rng: nat -> nat, pos: nat, n: nat)
    returns (i: nat)
    requires width >= 1 && height >= 1
    requires PlaceCircles(width, height, inCircle, rng, pos, n).0.Exhausted?
    ensures i < n && PackStepFails(width, height, inCircle, rng, pos, i)
  {
    var prev := PlaceCircles(width, height, inCircle, rng, pos, n - 1);
    if prev.0.Exhausted? {
      i := PlaceCirclesFailIndex(width, height, inCircle, rng, pos, n - 1);
    } else {
      i := n - 1;
      assert GenPoint(width, height, TierOf(i).diameter, prev.0.value, inCircle, rng, prev.1).0.Exhausted?;
    }
  }

  /** `gen_random_point` panics at step `i`: the fold reached `i`, and every
      one of the 10000 attempts drawn from there falls inside some circle
      already placed, grown by tier `i`'s exclusion distance. */
  predicate PackPanicsAt(width: nat, height: nat, inCircle: (Point, Circle, nat) -> bool,
                         rng: nat -> nat, pos: nat, i: nat)
    requires width >= 1 && height >= 1
  {
    var placed := PlaceCircles(width, height, inCircle, rng, pos, i);
    placed.0.Ok? &&
      RejectedBetween(width, height, CircleExclusion(placed.0.value, TierOf(i).diameter, inCircle),
                      rng, placed.1, 0, MaxAttempts)
  }

  /** A step of the fold fails exactly when all its attempts land inside
      the circles placed before it. */
  lemma PackStepPanics(width: nat, height: nat, inCircle: (Point, Circle, nat) -> bool,
                       rng: nat -> nat, pos: nat, i: nat)
    requires width >= 1 && height >= 1
    ensures PackStepFails(width, height, inCircle, rng, pos, i) <==> PackPanicsAt(width, height, inCircle, rng, pos, i)
  {
    var placed := PlaceCircles(width, height, inCircle, rng, pos, i);
    if placed.0.Ok? {
      var excluded := CircleExclusion(placed.0.value, TierOf(i).diameter, inCircle);
      SampleSpec(width, height, excluded, rng, placed.1);
      assert GenPoint(width, height, TierOf(i).diameter, placed.0.value, inCircle, rng, placed.1).0.Exhausted?
             == Sample(width, height, excluded, rng, placed.1).0.Exhausted?;
    }
  }

  /** A failed step aborts the fold: every longer fold panics too. */
  lemma PackStepAborts(width: nat, height: nat, inCircle: (Point, Circle, nat) -> bool,
                       rng: nat -> nat, pos: nat, i: nat, n: nat)
    requires width >= 1 && height >= 1 && i < n
    requires PackStepFails(width, height, inCircle, rng, pos, i)
    ensures PlaceCircles(width, height, inCircle, rng, pos, n).0.Exhausted?
  {
    var placed := PlaceCircles(width, height, inCircle, rng, pos, i);
    PlaceCirclesStep(width, height, inCircle, rng, pos, i, placed.0.value, placed.1);
    ExhaustedSticks(width, height, inCircle, rng, pos, i + 1, n);
  }

  /** The fold of `n` steps panics exactly when, at some step `i < n`, all
      10000 attempts land inside the circles placed before it. */
  lemma PlaceCirclesFails(width: nat, height: nat, inCircle: (Point, Circle, nat) -> bool,
                          rng: nat -> nat, pos: nat, n: nat)
    requires width >= 1 && height >= 1
    ensures PlaceCircles(width, height, inCircle, rng, pos, n).0.Exhausted? <==>
      exists i :: 0 <= i < n && PackPanicsAt(width, height, inCircle, rng, pos, i)
  {
    if PlaceCircles(width, height, inCircle, rng, pos, n).0.Exhausted? {
      var i := PlaceCirclesFailIndex(width, height, inCircle, rng, pos, n);
      PackStepPanics(width, height, inCircle, rng, pos, i);
    }
    if exists i :: 0 <= i < n && PackPanicsAt(width, height, inCircle, rng, pos, i) {
      var i :| 0 <= i < n && PackPanicsAt(width, height, inCircle, rng, pos, i);
      PackStepPanics(width, height, inCircle, rng, pos, i);
      PackStepAborts(width, height, inCircle, rng, pos, i, n);
    }
  }

  /** `Model::circles`: the fold that pushes one circle per index. */
  method Circles(width: nat, height: nat, inCircle: (Point, Circle, nat) -> bool, rng: nat -> nat, pos: nat)
    returns (r: Result<seq<Placed>>, next: nat)
    requires width >= 1 && height >= 1
    ensures (r, next) == PlaceCircles(width, height, inCircle, rng, pos, NumCircles)
    ensures r.Ok? ==> |r.value| == NumCircles
  {
    var acc: seq<Placed> := [];
    next := pos;
    for i := 0 to NumCircles
      invariant PlaceCircles(width, height, inCircle, rng, pos, i) == (Ok(acc), next)
      invariant |acc| == i
    {
      PlaceCirclesStep(width, height, inCircle, rng, pos, i, acc, next);
      var c;
      c, next := GenRandomPoint(width, height, TierOf(i).diameter, acc, inCircle, rng, next);
      if c.Exhausted? {
        ExhaustedSticks(width, height, inCircle, rng, pos, i + 1, NumCircles);
        return Exhausted, next;
      }
      acc := acc + [PlacedAt(i, c.value)];
    }
    r := Ok(acc);
  }

  /** Index of the first circle containing `p` (with no extra radius), or
      the list's length when there is none. */
  function FirstMatch(p: Point, circles: seq<Placed>, inCircle: (Point, Circle, nat) -> bool): (k: nat)
    ensures k <= |circles|
    ensures forall j :: 0 <= j < k ==> !inCircle(p, circles[j].circle, 0)
    ensures k < |circles| ==> inCircle(p, circles[k].circle, 0)
  {
    if circles == [] then 0
    else if inCircle(p, circles[0].circle, 0) then 0
    else 1 + FirstMatch(p, circles[1..], inCircle)
  }

  /** `Model::select_path_color`: the colour of the first circle that holds
      the path's first point, or the default colour. The source unwraps the
      first point, so the path must not be empty. */
  function SelectPathColor(path: seq<Point>, circles: seq<Placed>,
                           inCircle: (Point, Circle, nat) -> bool): string
    requires |path| > 0
  {
    var k := FirstMatch(path[0], circles, inCircle);
    if k < |circles| then circles[k].color else DefaultPathColor
  }

  /** Both sides of the lookup: a path starting inside some circle takes the
      colour of the first such circle, and one starting outside all of them
      takes the default colour. */
  lemma SelectPathColorSpec(path: seq<Point>, circles: seq<Placed>,
                            inCircle: (Point, Circle, nat) -> bool)
    requires |path| > 0
    ensures !InAnyCircle(path[0], circles, 0, inCircle) ==>
      SelectPathColor(path, circles, inCircle) == DefaultPathColor
    ensures InAnyCircle(path[0], circles, 0, inCircle) ==>
      exists k :: 0 <= k < |circles| && inCircle(path[0], circles[k].circle, 0)
        && (forall j :: 0 <= j < k ==> !inCircle(path[0], circles[j].circle, 0))
        && SelectPathColor(path, circles, inCircle) == circles[k].color
  {
    var k := FirstMatch(path[0], circles, inCircle);
    if InAnyCircle(path[0], circles, 0, inCircle) {
      var m :| 0 <= m < |circles| && inCircle(path[0], circles[m].circle, 0);
      assert k <= m;
    }
  }
}
