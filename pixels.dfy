/**
 * The value-level view of an image: 32-bit colours stored row by row, the
 * mapping from a coordinate to its slot, and the square window ("matrix")
 * through which filters read an image relative to a centre.
 */
module Pixels {
  import opened Geometry

  /** A packed ARGB colour; its channels are never inspected here. */
  type Color = bv32

  /** What a window read outside the image yields: fully transparent black. */
  const Transparent: Color := 0

  /** A coordinate that names a pixel of an image with dimensions `dimen`. */
  predicate InBounds(dimen: Size, p: Point) {
    0 <= p.x < dimen.width && 0 <= p.y < dimen.height
  }

  lemma RowBelowArea(dimen: Size, p: Point)
    requires InBounds(dimen, p)
    ensures (p.y + 1) * dimen.width <= dimen.width * dimen.height
  {
    assert (p.y + 1) * dimen.width <= dimen.height * dimen.width by {
      MulMonotone(p.y + 1, dimen.height, dimen.width);
    }
  }

  lemma MulMonotone(a: nat, b: nat, c: nat)
    requires a <= b
    ensures a * c <= b * c
  {
  }

  /** Row-major slot of an in-bounds coordinate: `y * width + x`. */
  function Offset(dimen: Size, p: Point): (i: nat)
    requires InBounds(dimen, p)
    ensures i < dimen.width * dimen.height
  {
    RowBelowArea(dimen, p);
    p.y * dimen.width + p.x
  }

  /** Two in-bounds coordinates share a slot only when they are the same. */
  lemma OffsetInjective(dimen: Size, p: Point, q: Point)
    requires InBounds(dimen, p) && InBounds(dimen, q)
    requires Offset(dimen, p) == Offset(dimen, q)
    ensures p == q
  {
    if p.y < q.y {
      RowsApart(dimen.width, p.y, q.y, p.x, q.x);
    } else if q.y < p.y {
      RowsApart(dimen.width, q.y, p.y, q.x, p.x);
    }
  }

  /** A slot in an earlier row lies before every slot of a later row. */
  lemma RowsApart(w: nat, y1: nat, y2: nat, x1: nat, x2: nat)
    requires y1 < y2 && x1 < w
    ensures y1 * w + x1 < y2 * w + x2
  {
    MulMonotone(y1 + 1, y2, w);
    assert (y1 + 1) * w == y1 * w + w;
  }

  /** Every slot of the buffer belongs to some in-bounds coordinate. */
  lemma OffsetOnto(dimen: Size, i: nat) returns (p: Point)
    requires i < dimen.width * dimen.height
    ensures InBounds(dimen, p) && Offset(dimen, p) == i
  {
    var w := dimen.width;
    assert w > 0;
    p := Point(i % w, i / w);
    assert i == (i / w) * w + i % w;
    if i / w >= dimen.height {
      MulMonotone(dimen.height, i / w, w);
      assert false;
    }
  }

  /**
   * The contents of an image as a value: its dimensions and its pixels in
   * row-major order.
   */
  datatype Raster = Raster(dimen: Size, pixels: seq<Color>) {

    predicate WellFormed() {
      |pixels| == dimen.width * dimen.height
    }

    function ColorAt(p: Point): Color
      requires WellFormed() && InBounds(dimen, p)
    {
      pixels[Offset(dimen, p)]
    }

    /** The raster with the pixel at `p` replaced by `c`. */
    function Put(p: Point, c: Color): (r: Raster)
      requires WellFormed() && InBounds(dimen, p)
      ensures r.WellFormed() && r.dimen == dimen
    {
      Raster(dimen, pixels[Offset(dimen, p) := c])
    }
  }

  /** Reading back a written pixel gives the written colour; every other pixel keeps its colour. */
  lemma PutColorAt(r: Raster, p: Point, c: Color, q: Point)
    requires r.WellFormed() && InBounds(r.dimen, p) && InBounds(r.dimen, q)
    ensures r.Put(p, c).ColorAt(q) == if q == p then c else r.ColorAt(q)
  {
    if q != p && Offset(r.dimen, q) == Offset(r.dimen, p) {
      OffsetInjective(r.dimen, p, q);
    }
  }

  /** Two rasters of the same dimensions that agree on every coordinate are equal. */
  lemma RasterExtensional(a: Raster, b: Raster)
    requires a.WellFormed() && b.WellFormed() && a.dimen == b.dimen
    requires forall p :: InBounds(a.dimen, p) ==> a.ColorAt(p) == b.ColorAt(p)
    ensures a == b
  {
    forall i | 0 <= i < |a.pixels|
      ensures a.pixels[i] == b.pixels[i]
    {
      var p := OffsetOnto(a.dimen, i);
      assert a.ColorAt(p) == b.ColorAt(p);
    }
  }

  /** Window sizes must be odd, so that a window has a centre cell. */
  predicate OddSize(size: nat) {
    size % 2 == 1
  }

  /** Half the window size: the window spans `hsize` cells on each side of its centre. */
  function HalfSize(size: nat): (hsize: nat)
    requires OddSize(size)
    ensures 2 * hsize + 1 == size
  {
    (size - 1) / 2
  }

  /** Absolute coordinate of window cell `(wx, wy)` for a window centred at `pos`. */
  function Resolve(pos: Point, hsize: nat, wx: int, wy: int): (q: Point)
    ensures wx == hsize && wy == hsize ==> q == pos
    ensures (wx, wy) == (q.x - pos.x + hsize, q.y - pos.y + hsize)
  {
    Point(pos.x + wx - hsize, pos.y + wy - hsize)
  }

  /**
   * A window over an image as a filter sees it: the window's size, half
   * size and centre, and the contents of the image it is placed on.
   */
  datatype MatrixView = MatrixView(size: nat, hsize: nat, pos: Point, image: Raster) {

    /** Colour at window cell `(wx, wy)`; outside the image, `Transparent`. */
    function ColorAt(wx: int, wy: int): (c: Color)
      requires image.WellFormed()
      ensures c != Transparent ==> InBounds(image.dimen, Resolve(pos, hsize, wx, wy))
      ensures InBounds(image.dimen, Resolve(pos, hsize, wx, wy)) ==> c == image.ColorAt(Resolve(pos, hsize, wx, wy))
    {
      var q := Resolve(pos, hsize, wx, wy);
      if InBounds(image.dimen, q) then image.ColorAt(q) else Transparent
    }

    /** Image contents after writing `c` at window cell `(wx, wy)`; a write outside the image is dropped. */
    function Write(wx: int, wy: int, c: Color): (r: Raster)
      requires image.WellFormed()
      ensures r.WellFormed() && r.dimen == image.dimen
      ensures !InBounds(image.dimen, Resolve(pos, hsize, wx, wy)) ==> r == image
      ensures InBounds(image.dimen, Resolve(pos, hsize, wx, wy)) ==> r.ColorAt(Resolve(pos, hsize, wx, wy)) == c
      ensures forall p | InBounds(image.dimen, p) && p != Resolve(pos, hsize, wx, wy) :: r.ColorAt(p) == image.ColorAt(p)
    {
      var q := Resolve(pos, hsize, wx, wy);
      if InBounds(image.dimen, q) then
        assert forall p | InBounds(image.dimen, p) && p != q :: image.Put(q, c).ColorAt(p) == image.ColorAt(p) by {
          forall p | InBounds(image.dimen, p) && p != q
            ensures image.Put(q, c).ColorAt(p) == image.ColorAt(p)
          {
            PutColorAt(image, q, c, p);
          }
        }
        PutColorAt(image, q, c, q);
        image.Put(q, c)
      else image
    }

    /** The colour of the window's centre cell. */
    function CentreColor(): Color
      requires image.WellFormed()
    {
      ColorAt(hsize, hsize)
    }
  }

  /**
   * The window of size `2 * hsize + 1` centred at `pos` covers exactly the
   * points at most `hsize` away from `pos` on each axis.
   */
  lemma WindowCovers(pos: Point, size: nat, q: Point)
    requires OddSize(size)
    ensures (exists wx, wy :: 0 <= wx < size && 0 <= wy < size && Resolve(pos, HalfSize(size), wx, wy) == q)
        <==> (pos.x - HalfSize(size) <= q.x <= pos.x + HalfSize(size) &&
              pos.y - HalfSize(size) <= q.y <= pos.y + HalfSize(size))
  {
    var h := HalfSize(size);
    if pos.x - h <= q.x <= pos.x + h && pos.y - h <= q.y <= pos.y + h {
      var wx, wy := q.x - pos.x + h, q.y - pos.y + h;
      assert Resolve(pos, h, wx, wy) == q;
    }
  }

  /** The centre cell `(hsize, hsize)` is the window's position itself. */
  lemma CentreIsPosition(v: MatrixView)
    requires v.image.WellFormed()
    ensures Resolve(v.pos, v.hsize, v.hsize, v.hsize) == v.pos
    ensures InBounds(v.image.dimen, v.pos) ==> v.CentreColor() == v.image.ColorAt(v.pos)
    ensures !InBounds(v.image.dimen, v.pos) ==> v.CentreColor() == Transparent
  {
  }

  /** A window of size 3 or more centred on the origin reads its top-left cell as `Transparent`. */
  lemma CornerAtOriginIsTransparent(v: MatrixView)
    requires v.image.WellFormed() && v.pos == PointZero && v.hsize >= 1
    ensures v.ColorAt(0, 0) == Transparent
  {
  }

  /**
   * Writing through a window and reading back through a window at the same
   * place: the same absolute pixel yields the written colour when it is
   * inside the image, and any other cell keeps what it had.
   */
  lemma WindowWriteRead(v: MatrixView, wx: int, wy: int, c: Color, ux: int, uy: int)
    requires v.image.WellFormed()
    ensures var after := MatrixView(v.size, v.hsize, v.pos, v.Write(wx, wy, c));
            var target := Resolve(v.pos, v.hsize, wx, wy);
            after.ColorAt(ux, uy) ==
              if Resolve(v.pos, v.hsize, ux, uy) == target && InBounds(v.image.dimen, target)
              then c else v.ColorAt(ux, uy)
  {
    var target := Resolve(v.pos, v.hsize, wx, wy);
    var q := Resolve(v.pos, v.hsize, ux, uy);
    if InBounds(v.image.dimen, target) && InBounds(v.image.dimen, q) {
      PutColorAt(v.image, target, c, q);
    }
  }
}
