/** Shared value types of the generator: integer canvas cells, plane points,
    circles and the outcome of a bounded random search. */
module Geometry {

  /** A canvas cell with integer coordinates (`UsizePoint`). */
  datatype UsizePoint = UsizePoint(x: nat, y: nat)

  /** A plane point (`Point`). The source stores `f32` coordinates; the model
      uses exact reals. */
  datatype Point = Point(x: real, y: real)

  /** A circle with a centre and an integer radius (`Circle`). */
  datatype Circle = Circle(center: Point, r: nat)

  /** A placed circle together with its fill colour, one entry of the list
      that the circle packer builds. */
  datatype Placed = Placed(circle: Circle, color: string)

  /** Outcome of a bounded rejection-sampling loop: a value, or the panic
      raised once the attempt budget is spent. */
  datatype Result<T> = Ok(value: T) | Exhausted

  /** The `as f32` conversion of a cell into a plane point. */
  function ToPoint(p: UsizePoint): (q: Point)
    ensures q.x >= 0.0 && q.y >= 0.0
  {
    Point(p.x as real, p.y as real)
  }

  /** A cell lies inside a `width × height` canvas. */
  predicate InBounds(p: UsizePoint, width: nat, height: nat)
  {
    p.x < width && p.y < height
  }
}
