/**
 * Screen geometry as the three programs obtain it: the logical size from
 * `robotgo.GetScreenSize` (the space the pointer is moved in) and the
 * physical size from `screenshot.GetDisplayBounds(0)` (the pixel space of a
 * capture). Both are plain integers; nothing guarantees they are positive.
 */
module Geometry {
  import opened Wrappers
  import opened Numeric

  datatype Point = Point(x: int, y: int)

  datatype Dims = Dims(width: int, height: int)

  datatype Screen = Screen(logical: Dims, physical: Dims)

  /** The only geometry check the programs make: neither physical dimension is zero. */
  predicate HasPhysicalExtent(s: Screen) {
    s.physical.width != 0 && s.physical.height != 0
  }

  /** The fatal exit the player and the vision recorder take when that check fails. */
  datatype Fatal = NoPhysicalDimensions

  /**
   * `int(float64(raw) * (float64(to) / float64(from)))`: the coordinate
   * `raw` carried from a space of extent `from` to one of extent `to`,
   * truncated toward zero.
   */
  function Rescale(raw: int, to: int, from: int): int
    requires from != 0
  {
    Trunc((raw as real) * ((to as real) / (from as real)))
  }

  /** A rescaled coordinate is the exact scaled value truncated toward zero: less than one unit nearer to zero. */
  lemma RescaleTruncatesExact(raw: int, to: int, from: int)
    requires from != 0
    ensures var r, exact := Rescale(raw, to, from), (raw as real) * ((to as real) / (from as real));
      && (0.0 <= exact ==> r as real <= exact < r as real + 1.0)
      && (exact < 0.0 ==> r as real - 1.0 < exact <= r as real)
  {
  }

  /** Equal extents leave a coordinate unchanged. */
  lemma RescaleIdentity(raw: int, d: int)
    requires d != 0
    ensures Rescale(raw, d, d) == raw
  {
    assert (d as real) / (d as real) == 1.0;
  }

  /** When the target extent is an integer multiple of the source extent, coordinates scale exactly. */
  lemma RescaleByFactor(raw: int, k: int, from: int)
    requires from != 0
    ensures Rescale(raw, k * from, from) == k * raw
  {
    assert ((k * from) as real) / (from as real) == k as real;
    assert (raw as real) * (k as real) == (k * raw) as real;
  }

  /** With a non-negative ratio, rescaling preserves the order of coordinates. */
  lemma ScaleMonotone(x: real, y: real, q: real)
    requires x <= y && 0.0 <= q
    ensures x * q <= y * q
  {
    assert y * q - x * q == (y - x) * q;
  }

  /** Carrying an integer multiple of the extent back to the extent undoes the scaling exactly. */
  lemma RescaleByInverse(raw: int, k: int, to: int)
    requires k != 0 && to != 0
    ensures Rescale(k * raw, to, k * to) == raw
  {
    assert (to as real) / ((k * to) as real) == 1.0 / (k as real);
    assert ((k * raw) as real) * (1.0 / (k as real)) == raw as real;
  }

  lemma RescaleMonotone(a: int, b: int, to: int, from: int)
    requires from != 0 && a <= b
    requires (0 <= to && 0 < from) || (to <= 0 && from < 0)
    ensures Rescale(a, to, from) <= Rescale(b, to, from)
  {
    var q := (to as real) / (from as real);
    RatioNonNegative(to as real, from as real);
    ScaleMonotone(a as real, b as real, q);
    TruncMonotone((a as real) * q, (b as real) * q);
  }

  lemma RatioNonNegative(to: real, from: real)
    requires (0.0 <= to && 0.0 < from) || (to <= 0.0 && from < 0.0)
    ensures to / from >= 0.0
  {
    if from < 0.0 {
      assert to / from == (-to) / (-from);
    }
  }

  /** Physical pixel coordinates mapped to the logical space, as the player and the vision recorder do. */
  function ToLogical(s: Screen, p: Point): Point
    requires HasPhysicalExtent(s)
  {
    Point(Rescale(p.x, s.logical.width, s.physical.width), Rescale(p.y, s.logical.height, s.physical.height))
  }

  /**
   * Logical coordinates mapped to the physical space, as the ground-truth
   * recorder does to place its marker. Nothing guards the logical size
   * there; with a zero logical dimension the float scale is not finite and
   * Go's conversion to int is implementation-specific, so there is no
   * result.
   */
  function ToPhysical(s: Screen, p: Point): (q: Option<Point>)
    ensures q.Some? <==> s.logical.width != 0 && s.logical.height != 0
    ensures q.Some? ==> -1.0 < q.value.x as real - (p.x as real) * ((s.physical.width as real) / (s.logical.width as real)) < 1.0
    ensures q.Some? ==> -1.0 < q.value.y as real - (p.y as real) * ((s.physical.height as real) / (s.logical.height as real)) < 1.0
  {
    if s.logical.width != 0 && s.logical.height != 0 then
      RescaleTruncatesExact(p.x, s.physical.width, s.logical.width);
      RescaleTruncatesExact(p.y, s.physical.height, s.logical.height);
      Some(Point(Rescale(p.x, s.physical.width, s.logical.width), Rescale(p.y, s.physical.height, s.logical.height)))
    else None
  }

  /** A screen whose logical and physical sizes agree maps physical points to themselves. */
  lemma ToLogicalIdentity(s: Screen, p: Point)
    requires HasPhysicalExtent(s) && s.logical == s.physical
    ensures ToLogical(s, p) == p
  {
    RescaleIdentity(p.x, s.physical.width);
    RescaleIdentity(p.y, s.physical.height);
  }

  /**
   * On a screen whose physical size is an integer multiple of its logical
   * size, as on a high-density display, mapping a logical point to the
   * physical space and back gives the point again.
   */
  lemma ToLogicalUndoesToPhysical(s: Screen, p: Point, kx: int, ky: int)
    requires s.logical.width != 0 && s.logical.height != 0 && kx != 0 && ky != 0
    requires s.physical.width == kx * s.logical.width && s.physical.height == ky * s.logical.height
    ensures ToPhysical(s, p).Some? && HasPhysicalExtent(s)
    ensures ToLogical(s, ToPhysical(s, p).value) == p
  {
    RescaleByFactor(p.x, kx, s.logical.width);
    RescaleByFactor(p.y, ky, s.logical.height);
    RescaleByInverse(p.x, kx, s.logical.width);
    RescaleByInverse(p.y, ky, s.logical.height);
  }
}
