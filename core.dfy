/**
 * The image core: an image that owns a row-major buffer of colours, a
 * matrix (a square window with a movable centre) over an image, and the
 * filter passes that walk a region of an image, place a matrix at every
 * cell, call the caller's filter and store its result in place or in a
 * separate buffer image.
 */
module Core {
  import opened Geometry
  import opened Pixels
  import opened Traversal

  /**
   * An image: dimensions, element count and the pixel buffer are fixed at
   * construction (hence `const`); only the colours in the buffer change.
   */
  class Image {
    const dimen: Size
    const len: nat
    const pixels: array<Color>

    /** `len` is the pixel count and the buffer holds exactly that many colours. */
    predicate Valid() {
      len == dimen.width * dimen.height && pixels.Length == len
    }

    /** The current contents of the image as a value. */
    function Contents(): (r: Raster)
      reads pixels
      requires Valid()
      ensures r.WellFormed() && r.dimen == dimen
    {
      Raster(dimen, pixels[..])
    }

    /** Takes over `pixels` as the image's buffer (no copy is made). */
    constructor FromBuffer(dimen: Size, pixels: array<Color>)
      requires pixels.Length == dimen.width * dimen.height
      ensures Valid() && this.dimen == dimen && this.pixels == pixels
    {
      this.dimen := dimen;
      this.len := dimen.width * dimen.height;
      this.pixels := pixels;
    }

    /** Whether `point` is a coordinate of this image. */
    function IsValid(point: Point): (b: bool)
      ensures b <==> InBounds(dimen, point)
      ensures b && Valid() ==> Offset(dimen, point) < pixels.Length
    {
      InBounds(dimen, point)
    }

    /** Whether the unsigned coordinate `(x, y)` is a coordinate of this image. */
    function IsValidXY(x: nat, y: nat): (b: bool)
      ensures b == IsValid(Point(x, y))
    {
      x < dimen.width && y < dimen.height
    }

    /** The colour at `point`; the caller must have checked `IsValid(point)`. */
    method GetArgbAt(point: Point) returns (color: Color)
      requires Valid() && IsValid(point)
      ensures color == Contents().ColorAt(point)
    {
      color := pixels[point.y * dimen.width + point.x];
    }

    /** The colour at `(x, y)`; the caller must have checked `IsValidXY(x, y)`. */
    method GetArgbAtXY(x: nat, y: nat) returns (color: Color)
      requires Valid() && IsValidXY(x, y)
      ensures color == Contents().ColorAt(Point(x, y))
    {
      color := pixels[y * dimen.width + x];
    }

    /** Stores `color` at `point`; the caller must have checked `IsValid(point)`. */
    method SetArgbAt(point: Point, color: Color)
      requires Valid() && IsValid(point)
      modifies pixels
      ensures Contents() == old(Contents()).Put(point, color)
    {
      pixels[point.y * dimen.width + point.x] := color;
    }

    /** Stores `color` at `(x, y)`; the caller must have checked `IsValidXY(x, y)`. */
    method SetArgbAtXY(x: nat, y: nat, color: Color)
      requires Valid() && IsValidXY(x, y)
      modifies pixels
      ensures Contents() == old(Contents()).Put(Point(x, y), color)
    {
      pixels[y * dimen.width + x] := color;
    }

    /** A new matrix of window size `size` over this image, centred at the origin. */
    method GetMatrix(size: nat) returns (m: Matrix)
      requires Valid() && OddSize(size)
      ensures fresh(m) && m.Valid()
      ensures m.image == this && m.size == size && m.pos == PointZero
    {
      m := new Matrix.FromImage(this, size);
    }

    /** A new matrix of window size `size` over this image, centred at `point`. */
    method GetMatrixAt(point: Point, size: nat) returns (m: Matrix)
      requires Valid() && OddSize(size)
      ensures fresh(m) && m.Valid()
      ensures m.image == this && m.size == size && m.pos == point
    {
      m := new Matrix.FromImageAndPos(this, point, size);
    }

    /** A new matrix of window size `size` over this image, centred at `(x, y)`. */
    method GetMatrixAtXY(x: nat, y: nat, size: nat) returns (m: Matrix)
      requires Valid() && OddSize(size)
      ensures fresh(m) && m.Valid()
      ensures m.image == this && m.size == size && m.pos == Point(x, y)
    {
      m := new Matrix.FromImageAndPos(this, Point(x, y), size);
    }

    /**
     * The shared in-place pass: walks `region` row by row, moves one matrix
     * to each cell, calls the filter on it and stores the result at that
     * cell of this image.
     */
    method ApplyInPlace<A>(call: Invocation<A>, region: Region)
      requires Valid() && call.Valid() && region.Inside(dimen)
      modifies pixels
      ensures Contents() == FoldInPlace(call, old(Contents()), Cells(region))
    {
      var m := new Matrix.FromImage(this, call.size);
      var y := region.y0;
      while y < region.y1
        invariant region.y0 <= y <= region.y1
        invariant Contents() == FoldInPlace(call, old(Contents()), Visited(region, region.x0, y))
      {
        InPlaceRow(call, region, y, m, old(Contents()));
        VisitedRow(region, y);
        y := y + 1;
      }
      VisitedAll(region);
    }

    /** One row of an in-place pass: the cells `(x0, y), ..., (x1 - 1, y)` of `region`, left to right. */
    method InPlaceRow<A>(call: Invocation<A>, region: Region, y: int, m: Matrix, ghost start: Raster)
      requires Valid() && call.Valid() && region.Inside(dimen) && region.y0 <= y < region.y1
      requires m.Valid() && m.image == this && m.size == call.size
      requires start.WellFormed() && start.dimen == dimen
      requires Contents() == FoldInPlace(call, start, Visited(region, region.x0, y))
      modifies pixels, m
      ensures Contents() == FoldInPlace(call, start, Visited(region, region.x1, y))
    {
      var x := region.x0;
      while x < region.x1
        invariant region.x0 <= x <= region.x1
        invariant AllInBounds(dimen, Visited(region, x, y))
        invariant Contents() == FoldInPlace(call, start, Visited(region, x, y))
      {
        ghost var before := Contents();
        InPlaceStep(call, start, region, dimen, x, y);
        VisitInPlace(call, x, y, m);
        assert Contents() == before.Put(Point(x, y), call.Result(before, Point(x, y)));
        x := x + 1;
      }
    }

    /** One visit of an in-place pass: centre `m` on `(x, y)`, call the filter, store its result there. */
    method VisitInPlace<A>(call: Invocation<A>, x: nat, y: nat, m: Matrix)
      requires Valid() && call.Valid() && IsValidXY(x, y)
      requires m.Valid() && m.image == this && m.size == call.size
      modifies pixels, m
      ensures m.pos == Point(x, y)
      ensures Contents() == old(Contents()).Put(Point(x, y), call.Result(old(Contents()), Point(x, y)))
    {
      m.pos := Point(x, y);
      var color := call.filter(call.argc, call.argv, m.View());
      SetArgbAtXY(x, y, color);
    }

    /**
     * The shared buffered pass: as `ApplyInPlace`, but the matrix stays on
     * this image and each result is stored at the same cell of `buffer`.
     */
    method ApplyToBuffer<A>(call: Invocation<A>, region: Region, buffer: Image)
      requires Valid() && call.Valid() && region.Inside(dimen)
      requires buffer.Valid() && buffer.dimen == dimen && buffer.pixels != pixels
      modifies buffer.pixels
      ensures pixels[..] == old(pixels[..])
      ensures buffer.Contents() == FoldBuffered(call, Contents(), old(buffer.Contents()), Cells(region))
    {
      var m := new Matrix.FromImage(this, call.size);
      var y := region.y0;
      while y < region.y1
        invariant region.y0 <= y <= region.y1
        invariant buffer.Contents() == FoldBuffered(call, Contents(), old(buffer.Contents()), Visited(region, region.x0, y))
      {
        BufferedRow(call, region, y, m, buffer, old(buffer.Contents()));
        VisitedRow(region, y);
        y := y + 1;
      }
      VisitedAll(region);
    }

    /** One row of a buffered pass: the cells `(x0, y), ..., (x1 - 1, y)` of `region`, left to right. */
    method BufferedRow<A>(call: Invocation<A>, region: Region, y: int, m: Matrix, buffer: Image, ghost start: Raster)
      requires Valid() && call.Valid() && region.Inside(dimen) && region.y0 <= y < region.y1
      requires m.Valid() && m.image == this && m.size == call.size
      requires buffer.Valid() && buffer.dimen == dimen && buffer.pixels != pixels
      requires start.WellFormed() && start.dimen == dimen
      requires buffer.Contents() == FoldBuffered(call, Contents(), start, Visited(region, region.x0, y))
      modifies buffer.pixels, m
      ensures buffer.Contents() == FoldBuffered(call, Contents(), start, Visited(region, region.x1, y))
    {
      ghost var src := Contents();
      var x := region.x0;
      while x < region.x1
        invariant region.x0 <= x <= region.x1
        invariant Contents() == src
        invariant AllInBounds(dimen, Visited(region, x, y))
        invariant buffer.Contents() == FoldBuffered(call, src, start, Visited(region, x, y))
      {
        ghost var before := buffer.Contents();
        BufferedStep(call, src, start, region, dimen, x, y);
        VisitBuffered(call, x, y, m, buffer);
        assert buffer.Contents() == before.Put(Point(x, y), call.Result(src, Point(x, y)));
        x := x + 1;
      }
    }

    /** One visit of a buffered pass: centre `m` on `(x, y)`, call the filter, store its result in `buffer`. */
    method VisitBuffered<A>(call: Invocation<A>, x: nat, y: nat, m: Matrix, buffer: Image)
      requires Valid() && call.Valid() && IsValidXY(x, y)
      requires m.Valid() && m.image == this && m.size == call.size
      requires buffer.Valid() && buffer.dimen == dimen && buffer.pixels != pixels
      modifies buffer.pixels, m
      ensures m.pos == Point(x, y) && pixels[..] == old(pixels[..])
      ensures buffer.Contents() == old(buffer.Contents()).Put(Point(x, y), call.Result(Contents(), Point(x, y)))
    {
      m.pos := Point(x, y);
      var color := call.filter(call.argc, call.argv, m.View());
      buffer.SetArgbAtXY(x, y, color);
    }

    /** Filters the whole image in place. */
    method ApplyFilter<A>(filter: Filter<A>, mSize: nat)
      requires Valid() && OddSize(mSize)
      modifies pixels
      ensures Contents() == FoldInPlace(Invocation(filter, 0, None, mSize), old(Contents()), Cells(WholeImage(dimen)))
    {
      ApplyInPlace(Invocation(filter, 0, None, mSize), WholeImage(dimen));
    }

    /** Filters in place the part of the image from `pos` to its far edges. */
    method ApplyFilterAt<A>(filter: Filter<A>, pos: Point, mSize: nat)
      requires Valid() && OddSize(mSize)
      modifies pixels
      ensures Contents() == FoldInPlace(Invocation(filter, 0, None, mSize), old(Contents()), Cells(FromPosition(dimen, pos)))
    {
      ApplyInPlace(Invocation(filter, 0, None, mSize), FromPosition(dimen, pos));
    }

    /** Filters in place the part of the image within `[0, area.w) x [0, area.h)`. */
    method ApplyFilterTo<A>(filter: Filter<A>, area: Rectangle, mSize: nat)
      requires Valid() && OddSize(mSize)
      modifies pixels
      ensures Contents() == FoldInPlace(Invocation(filter, 0, None, mSize), old(Contents()), Cells(WithinArea(dimen, area)))
    {
      ApplyInPlace(Invocation(filter, 0, None, mSize), WithinArea(dimen, area));
    }

    /** As `ApplyFilterTo`, handing `argc` and `argv` to every filter call. */
    method ApplyFilterWithArgsTo<A>(argc: nat, argv: Option<A>, filter: Filter<A>, area: Rectangle, mSize: nat)
      requires Valid() && OddSize(mSize)
      modifies pixels
      ensures Contents() == FoldInPlace(Invocation(filter, argc, argv, mSize), old(Contents()), Cells(WithinArea(dimen, area)))
    {
      ApplyInPlace(Invocation(filter, argc, argv, mSize), WithinArea(dimen, area));
    }

    /** Filters the whole image into `buffer`, leaving this image as it is. */
    method ApplyBufferedFilter<A>(filter: Filter<A>, mSize: nat, buffer: Image)
      requires Valid() && OddSize(mSize)
      requires buffer.Valid() && buffer.dimen == dimen && buffer.pixels != pixels
      modifies buffer.pixels
      ensures pixels[..] == old(pixels[..])
      ensures buffer.Contents() ==
              FoldBuffered(Invocation(filter, 0, None, mSize), Contents(), old(buffer.Contents()), Cells(WholeImage(dimen)))
    {
      ApplyToBuffer(Invocation(filter, 0, None, mSize), WholeImage(dimen), buffer);
    }

    /** Filters into `buffer` the part of the image from `pos` to its far edges. */
    method ApplyBufferedFilterAt<A>(filter: Filter<A>, pos: Point, mSize: nat, buffer: Image)
      requires Valid() && OddSize(mSize)
      requires buffer.Valid() && buffer.dimen == dimen && buffer.pixels != pixels
      modifies buffer.pixels
      ensures pixels[..] == old(pixels[..])
      ensures buffer.Contents() ==
              FoldBuffered(Invocation(filter, 0, None, mSize), Contents(), old(buffer.Contents()), Cells(FromPosition(dimen, pos)))
    {
      ApplyToBuffer(Invocation(filter, 0, None, mSize), FromPosition(dimen, pos), buffer);
    }

    /** Filters into `buffer` the part of the image within `[0, area.w) x [0, area.h)`. */
    method ApplyBufferedFilterTo<A>(filter: Filter<A>, area: Rectangle, mSize: nat, buffer: Image)
      requires Valid() && OddSize(mSize)
      requires buffer.Valid() && buffer.dimen == dimen && buffer.pixels != pixels
      modifies buffer.pixels
      ensures pixels[..] == old(pixels[..])
      ensures buffer.Contents() ==
              FoldBuffered(Invocation(filter, 0, None, mSize), Contents(), old(buffer.Contents()), Cells(WithinArea(dimen, area)))
    {
      ApplyToBuffer(Invocation(filter, 0, None, mSize), WithinArea(dimen, area), buffer);
    }

    /** As `ApplyBufferedFilterTo`, handing `argc` and `argv` to every filter call. */
    method ApplyBufferedFilterWithArgsTo<A>(argc: nat, argv: Option<A>, filter: Filter<A>, area: Rectangle, mSize: nat,
                                            buffer: Image)
      requires Valid() && OddSize(mSize)
      requires buffer.Valid() && buffer.dimen == dimen && buffer.pixels != pixels
      modifies buffer.pixels
      ensures pixels[..] == old(pixels[..])
      ensures buffer.Contents() ==
              FoldBuffered(Invocation(filter, argc, argv, mSize), Contents(), old(buffer.Contents()), Cells(WithinArea(dimen, area)))
    {
      ApplyToBuffer(Invocation(filter, argc, argv, mSize), WithinArea(dimen, area), buffer);
    }
  }

  /**
   * A square window over an image. It does not own the image; its size,
   * half size and image are fixed, its centre `pos` moves and may lie
   * anywhere, inside the image or not.
   */
  class Matrix {
    const size: nat
    const hsize: nat
    var pos: Point
    const image: Image

    predicate Valid() {
      OddSize(size) && hsize == HalfSize(size) && image.Valid()
    }

    constructor FromImage(image: Image, size: nat)
      requires image.Valid() && OddSize(size)
      ensures Valid() && this.image == image && this.size == size && pos == PointZero
    {
      this.size := size;
      this.hsize := HalfSize(size);
      this.image := image;
      this.pos := PointZero;
    }

    constructor FromImageAndPos(image: Image, point: Point, size: nat)
      requires image.Valid() && OddSize(size)
      ensures Valid() && this.image == image && this.size == size && pos == point
    {
      this.size := size;
      this.hsize := HalfSize(size);
      this.image := image;
      this.pos := point;
    }

    /** The matrix as its filter sees it: window shape, centre and the image's current contents. */
    function View(): MatrixView
      reads this, image.pixels
      requires Valid()
    {
      MatrixView(size, hsize, pos, image.Contents())
    }

    /** The colour at window cell `point`; `Transparent` when that cell lies outside the image. */
    method GetColorAt(point: Point) returns (color: Color)
      requires Valid()
      ensures color == View().ColorAt(point.x, point.y)
    {
      var q := Resolve(pos, hsize, point.x, point.y);
      if image.IsValid(q) {
        color := image.GetArgbAt(q);
      } else {
        color := Transparent;
      }
    }

    /** The colour at window cell `(x, y)`; `Transparent` when that cell lies outside the image. */
    method GetColorAtXY(x: nat, y: nat) returns (color: Color)
      requires Valid()
      ensures color == View().ColorAt(x, y)
    {
      color := GetColorAt(Point(x, y));
    }

    /** Stores `color` at window cell `point`; nothing happens when that cell lies outside the image. */
    method SetColorAt(point: Point, color: Color)
      requires Valid()
      modifies image.pixels
      ensures image.Contents() == old(View()).Write(point.x, point.y, color)
      ensures !image.IsValid(Resolve(pos, hsize, point.x, point.y)) ==> image.pixels[..] == old(image.pixels[..])
    {
      var q := Resolve(pos, hsize, point.x, point.y);
      if image.IsValid(q) {
        image.SetArgbAt(q, color);
      }
    }

    /** Stores `color` at window cell `(x, y)`; nothing happens when that cell lies outside the image. */
    method SetColorAtXY(x: nat, y: nat, color: Color)
      requires Valid()
      modifies image.pixels
      ensures image.Contents() == old(View()).Write(x, y, color)
      ensures !image.IsValid(Resolve(pos, hsize, x, y)) ==> image.pixels[..] == old(image.pixels[..])
    {
      SetColorAt(Point(x, y), color);
    }
  }
}
