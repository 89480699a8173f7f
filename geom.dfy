/** Plain geometry values and the `f64_bound` clamp. */
module Geom {
  datatype Point = Point(x: real, y: real)
  datatype Size = Size(w: real, h: real)
  datatype Rect = Rect(x: real, y: real, w: real, h: real)

  /**
   * `f64_bound(min, val, max)`: `max` above the range, `min` below it, `val` otherwise.
   * The upper test comes first, so for an empty range (min > max) a value
   * above max gives max.
   */
  function F64Bound(min: real, v: real, max: real): (r: real)
    ensures v > max ==> r == max
    ensures v <= max && v < min ==> r == min
    ensures min <= v <= max ==> r == v
    ensures min <= max ==> min <= r <= max
  {
    if v > max then max
    else if v < min then min
    else v
  }

  /** Bounding a bounded value changes nothing. */
  lemma BoundIdempotent(min: real, v: real, max: real)
    requires min <= max
    ensures F64Bound(min, F64Bound(min, v, max), max) == F64Bound(min, v, max)
  {
  }

  /** The bound preserves the order of its argument. */
  lemma BoundMonotone(min: real, v: real, w: real, max: real)
    requires min <= max && v <= w
    ensures F64Bound(min, v, max) <= F64Bound(min, w, max)
  {
  }
}
