/**
 * Plain geometry values used by the image core: a signed point, an unsigned
 * size and a rectangle given by its width and height only.
 */
module Geometry {

  /** The 16-bit unsigned fields of a rectangle. */
  newtype U16 = n: int | 0 <= n < 0x1_0000

  /** A signed coordinate (both fields are `ssize_t` in the library). */
  datatype Point = Point(x: int, y: int)

  /** Image dimensions (the library's `KmzSize`; both fields unsigned). */
  datatype Size = Size(width: nat, height: nat)

  /** A rectangle without an origin: only a width and a height. */
  datatype Rectangle = Rectangle(w: U16, h: U16)

  const PointZero: Point := Point(0, 0)

  const RectangleZero: Rectangle := Rectangle(0, 0)

  /**
   * A rectangle from unsigned dimensions; each dimension is stored in a
   * 16-bit field, so it keeps only its low 16 bits.
   */
  function RectangleFromDimen(w: nat, h: nat): (r: Rectangle)
    ensures w < 0x1_0000 ==> r.w as int == w
    ensures h < 0x1_0000 ==> r.h as int == h
    ensures w >= 0x1_0000 ==> r.w as int < w
    ensures h >= 0x1_0000 ==> r.h as int < h
  {
    Rectangle((w % 0x1_0000) as U16, (h % 0x1_0000) as U16)
  }

  /** Dimensions read from a rectangle rebuild that same rectangle. */
  lemma RectangleDimenRoundTrip(r: Rectangle)
    ensures RectangleFromDimen(r.w as int, r.h as int) == r
  {
  }

  /**
   * Dimensions that differ by multiples of 2^16 give the same rectangle;
   * with the small-dimension clauses above, this fixes each field to the
   * low 16 bits of its dimension.
   */
  lemma RectangleFromDimenWraps(w: nat, h: nat, i: nat, j: nat)
    ensures RectangleFromDimen(w + i * 0x1_0000, h + j * 0x1_0000) == RectangleFromDimen(w, h)
  {
  }
}
