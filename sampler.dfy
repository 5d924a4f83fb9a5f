/** The rejection sampler shared by `Model::random_point` and
    `Model::gen_random_point`: draw a cell uniformly from the canvas, accept it
    unless it is excluded, and give up with a panic after the 10000th
    rejection.

    The random generator is injected: `rng(j)` stands for the value behind
    the `j`-th `gen_range` call, and that call yields `rng(j) % n`; every attempt
    takes two draws, first for `x`, then for `y`. Each sampler takes the
    position of its first draw and returns the position after its last. */
module Sampler {
  import opened Geometry

  /** The loop panics once its attempt counter reaches this value. */
  const MaxAttempts: nat := 10000

  /** The cell drawn by attempt `k` when the draws start at `pos`. */
  function Attempt(width: nat, height: nat, rng: nat -> nat, pos: nat, k: nat): (p: UsizePoint)
    requires width >= 1 && height >= 1
    ensures InBounds(p, width, height)
  {
    UsizePoint(rng(pos + 2 * k) % width, rng(pos + 2 * k + 1) % height)
  }

  /** The loop's outcome and next draw position, starting at attempt `k`. */
  function SampleFrom(width: nat, height: nat, excluded: UsizePoint -> bool,
                      rng: nat -> nat, pos: nat, k: nat): (Result<UsizePoint>, nat)
    requires width >= 1 && height >= 1 && k < MaxAttempts
    decreases MaxAttempts - k
  {
    var p := Attempt(width, height, rng, pos, k);
    if !excluded(p) then (Ok(p), pos + 2 * (k + 1))
    else if k + 1 == MaxAttempts then (Exhausted, pos + 2 * (k + 1))
    else SampleFrom(width, height, excluded, rng, pos, k + 1)
  }

  /** The whole sampling loop, from attempt 0. */
  function Sample(width: nat, height: nat, excluded: UsizePoint -> bool,
                  rng: nat -> nat, pos: nat): (Result<UsizePoint>, nat)
    requires width >= 1 && height >= 1
  {
    SampleFrom(width, height, excluded, rng, pos, 0)
  }

  /** Every attempt from `lo` up to, but not including, `hi` is excluded. */
  predicate RejectedBetween(width: nat, height: nat, excluded: UsizePoint -> bool,
                            rng: nat -> nat, pos: nat, lo: nat, hi: nat)
    requires width >= 1 && height >= 1
  {
    forall i :: lo <= i < hi ==> excluded(Attempt(width, height, rng, pos, i))
  }

  /** From attempt `k` on, the loop panics exactly when every remaining
      attempt is excluded, and a panic has consumed all the draws. */
  lemma {:induction false} SampleFromPanics(width: nat, height: nat, excluded: UsizePoint -> bool,
                                            rng: nat -> nat, pos: nat, k: nat)
    requires width >= 1 && height >= 1 && k < MaxAttempts
    ensures var (r, next) := SampleFrom(width, height, excluded, rng, pos, k);
      && (r.Exhausted? <==> RejectedBetween(width, height, excluded, rng, pos, k, MaxAttempts))
      && (r.Exhausted? ==> next == pos + 2 * MaxAttempts)
    decreases MaxAttempts - k
  {
    if excluded(Attempt(width, height, rng, pos, k)) && k + 1 < MaxAttempts {
      SampleFromPanics(width, height, excluded, rng, pos, k + 1);
    }
  }

  /** From attempt `k` on, an accepted cell is the first attempt that is not
      excluded, and the loop has consumed two draws per attempt up to and
      including it. */
  lemma {:induction false} SampleFromAccepts(width: nat, height: nat, excluded: UsizePoint -> bool,
                                             rng: nat -> nat, pos: nat, k: nat)
    requires width >= 1 && height >= 1 && k < MaxAttempts
    ensures var (r, next) := SampleFrom(width, height, excluded, rng, pos, k);
      r.Ok? ==>
        exists j :: k <= j < MaxAttempts && r.value == Attempt(width, height, rng, pos, j)
          && !excluded(r.value) && next == pos + 2 * (j + 1)
          && RejectedBetween(width, height, excluded, rng, pos, k, j)
    decreases MaxAttempts - k
  {
    var (r, next) := SampleFrom(width, height, excluded, rng, pos, k);
    if !excluded(Attempt(width, height, rng, pos, k)) {
      assert r.value == Attempt(width, height, rng, pos, k) && next == pos + 2 * (k + 1);
      assert RejectedBetween(width, height, excluded, rng, pos, k, k);
    } else if k + 1 < MaxAttempts {
      SampleFromAccepts(width, height, excluded, rng, pos, k + 1);
      if r.Ok? {
        var j :| k + 1 <= j < MaxAttempts && r.value == Attempt(width, height, rng, pos, j)
          && !excluded(r.value) && next == pos + 2 * (j + 1)
          && RejectedBetween(width, height, excluded, rng, pos, k + 1, j);
        assert RejectedBetween(width, height, excluded, rng, pos, k, j);
      }
    }
  }

  /** What a caller of the sampler may rely on: an accepted cell lies on the
      canvas and is not excluded; the loop panics exactly when all 10000
      attempts are excluded; and it makes at most 10000 attempts. */
  lemma SampleSpec(width: nat, height: nat, excluded: UsizePoint -> bool, rng: nat -> nat, pos: nat)
    requires width >= 1 && height >= 1
    ensures var (r, next) := Sample(width, height, excluded, rng, pos);
      && (r.Ok? ==> InBounds(r.value, width, height) && !excluded(r.value))
      && (r.Exhausted? <==> RejectedBetween(width, height, excluded, rng, pos, 0, MaxAttempts))
      && pos + 2 <= next <= pos + 2 * MaxAttempts
  {
    SampleFromPanics(width, height, excluded, rng, pos, 0);
    SampleFromAccepts(width, height, excluded, rng, pos, 0);
    var (r, next) := Sample(width, height, excluded, rng, pos);
    if r.Ok? {
      var j :| 0 <= j < MaxAttempts && r.value == Attempt(width, height, rng, pos, j)
        && !excluded(r.value) && next == pos + 2 * (j + 1);
    }
  }

  /** The sampling loop itself, with its mutable attempt counter. */
  method SamplePoint(width: nat, height: nat, excluded: UsizePoint -> bool, rng: nat -> nat, pos: nat)
    returns (r: Result<UsizePoint>, next: nat)
    requires width >= 1 && height >= 1
    ensures (r, next) == Sample(width, height, excluded, rng, pos)
  {
    var i := 0;
    next := pos;
    while true
      invariant 0 <= i < MaxAttempts && next == pos + 2 * i
      invariant SampleFrom(width, height, excluded, rng, pos, i) == Sample(width, height, excluded, rng, pos)
      decreases MaxAttempts - i
    {
      var x := rng(next) % width;
      var y := rng(next + 1) % height;
      next := next + 2;
      var p := UsizePoint(x, y);
      if !excluded(p) {
        return Ok(p), next;
      }
      i := i + 1;
      if i == MaxAttempts {
        return Exhausted, next;
      }
    }
  }

  /** The exclusion test of `random_point`: the cell is already in `points`. */
  function PointExclusion(points: seq<UsizePoint>): UsizePoint -> bool
  {
    p => p in points
  }

  /** All 10000 attempts drawn from `pos` hit a cell of `points`: the
      condition under which `random_point` panics. */
  predicate AllAttemptsHit(width: nat, height: nat, rng: nat -> nat, pos: nat, points: seq<UsizePoint>)
    requires width >= 1 && height >= 1
  {
    forall j :: 0 <= j < MaxAttempts ==> Attempt(width, height, rng, pos, j) in points
  }

  /** `Model::random_point`: a canvas cell not yet in `points`. The list is
      passed by shared reference and is a value here, so it is unchanged. */
  method RandomPoint(width: nat, height: nat, points: seq<UsizePoint>, rng: nat -> nat, pos: nat)
    returns (r: Result<UsizePoint>, next: nat)
    requires width >= 1 && height >= 1
    ensures (r, next) == Sample(width, height, PointExclusion(points), rng, pos)
    ensures r.Ok? ==> InBounds(r.value, width, height) && r.value !in points
    ensures r.Exhausted? <==> AllAttemptsHit(width, height, rng, pos, points)
    ensures pos + 2 <= next <= pos + 2 * MaxAttempts
  {
    r, next := SamplePoint(width, height, PointExclusion(points), rng, pos);
    SampleSpec(width, height, PointExclusion(points), rng, pos);
  }

  /** Some circle of the list contains `p` once its radius is grown by
      `other` (the `filter(in_circle).next()` of the source is not `None`).
      `inCircle` stands for `Model::in_circle`. */
  predicate InAnyCircle(p: Point, circles: seq<Placed>, other: nat, inCircle: (Point, Circle, nat) -> bool)
  {
    exists k :: 0 <= k < |circles| && inCircle(p, circles[k].circle, other)
  }

  /** The exclusion test of `gen_random_point`. */
  function CircleExclusion(circles: seq<Placed>, diameter: nat,
                           inCircle: (Point, Circle, nat) -> bool): UsizePoint -> bool
  {
    q => InAnyCircle(ToPoint(q), circles, diameter, inCircle)
  }

  /** The outcome of `gen_random_point`: the sampled cell converted to a
      plane point. */
  function GenPoint(width: nat, height: nat, diameter: nat, circles: seq<Placed>,
                    inCircle: (Point, Circle, nat) -> bool, rng: nat -> nat, pos: nat): (Result<Point>, nat)
    requires width >= 1 && height >= 1
  {
    var (r, next) := Sample(width, height, CircleExclusion(circles, diameter, inCircle), rng, pos);
    match r
    case Ok(q) => (Ok(ToPoint(q)), next)
    case Exhausted => (Exhausted, next)
  }

  /** An accepted centre is a canvas cell that lies outside every circle of
      the list grown by `diameter`; the draws advance by at most 10000
      attempts. */
  lemma GenPointSpec(width: nat, height: nat, diameter: nat, circles: seq<Placed>,
                     inCircle: (Point, Circle, nat) -> bool, rng: nat -> nat, pos: nat)
    requires width >= 1 && height >= 1
    ensures var (r, next) := GenPoint(width, height, diameter, circles, inCircle, rng, pos);
      && (r.Ok? ==>
            && !InAnyCircle(r.value, circles, diameter, inCircle)
            && 0.0 <= r.value.x < width as real && 0.0 <= r.value.y < height as real)
      && pos + 2 <= next <= pos + 2 * MaxAttempts
  {
    SampleSpec(width, height, CircleExclusion(circles, diameter, inCircle), rng, pos);
  }

  /** `Model::gen_random_point`: a centre outside every circle placed so
      far, each grown by `diameter`. */
  method GenRandomPoint(width: nat, height: nat, diameter: nat, circles: seq<Placed>,
                        inCircle: (Point, Circle, nat) -> bool, rng: nat -> nat, pos: nat)
    returns (r: Result<Point>, next: nat)
    requires width >= 1 && height >= 1
    ensures (r, next) == GenPoint(width, height, diameter, circles, inCircle, rng, pos)
    ensures r.Ok? ==> !InAnyCircle(r.value, circles, diameter, inCircle)
  {
    var q;
    q, next := SamplePoint(width, height, CircleExclusion(circles, diameter, inCircle), rng, pos);
    r := if q.Ok? then Ok(ToPoint(q.value)) else Exhausted;
    GenPointSpec(width, height, diameter, circles, inCircle, rng, pos);
  }
}
