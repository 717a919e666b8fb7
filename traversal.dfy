/**
 * What the filter engine does, as values: the region it walks (clipped to
 * the image), the row-major order of the cells it visits, and the contents
 * an in-place or a buffered pass leaves behind.
 */
module Traversal {
  import opened Geometry
  import opened Pixels

  /** A possibly absent value; `None` stands for a null `argv` pointer. */
  datatype Option<T> = None | Some(value: T)

  /** A caller-supplied filter: extra-argument count, opaque payload, window; returns one colour. */
  type Filter<!A> = (nat, Option<A>, MatrixView) -> Color

  /** A half-open region `[x0, x1) x [y0, y1)` of image coordinates. */
  datatype Region = Region(x0: int, y0: int, x1: int, y1: int) {

    predicate Contains(p: Point) {
      x0 <= p.x < x1 && y0 <= p.y < y1
    }

    /** The region is ordered and lies within an image of dimensions `dimen`. */
    predicate Inside(dimen: Size) {
      0 <= x0 <= x1 <= dimen.width && 0 <= y0 <= y1 <= dimen.height
    }
  }

  function Max(a: int, b: int): int { if a < b then b else a }

  function Min(a: int, b: int): int { if a < b then a else b }

  /**
   * The rectangle of width `w` and height `h` whose top-left corner is
   * `origin`, intersected with the image.
   */
  function Clip(dimen: Size, origin: Point, w: int, h: int): (g: Region)
    ensures g.Inside(dimen)
    ensures forall p :: g.Contains(p) <==>
      InBounds(dimen, p) && origin.x <= p.x < origin.x + w && origin.y <= p.y < origin.y + h
  {
    var x0 := Min(Max(origin.x, 0), dimen.width);
    var y0 := Min(Max(origin.y, 0), dimen.height);
    Region(x0, y0, Max(x0, Min(origin.x + w, dimen.width)), Max(y0, Min(origin.y + h, dimen.height)))
  }

  /** The region of the whole-image passes (`apply_filter`, `apply_buffered_filter`). */
  function WholeImage(dimen: Size): (g: Region)
    ensures g.Inside(dimen)
    ensures forall p :: g.Contains(p) <==> InBounds(dimen, p)
  {
    Clip(dimen, PointZero, dimen.width, dimen.height)
  }

  /** The region of the `_at` passes: from `pos` to the far edges of the image. */
  function FromPosition(dimen: Size, pos: Point): (g: Region)
    ensures g.Inside(dimen)
    ensures forall p :: g.Contains(p) <==> InBounds(dimen, p) && pos.x <= p.x && pos.y <= p.y
  {
    Clip(dimen, pos, dimen.width - pos.x, dimen.height - pos.y)
  }

  /** The region of the `_to` passes: `[0, area.w) x [0, area.h)` within the image. */
  function WithinArea(dimen: Size, area: Rectangle): (g: Region)
    ensures g.Inside(dimen)
    ensures forall p :: g.Contains(p) <==> InBounds(dimen, p) && p.x < area.w as int && p.y < area.h as int
  {
    Clip(dimen, PointZero, area.w as int, area.h as int)
  }

  /** `p` comes before `q` in row-major order: an earlier row, or the same row and further left. */
  predicate Precedes(p: Point, q: Point) {
    p.y < q.y || (p.y == q.y && p.x < q.x)
  }

  predicate RowMajor(s: seq<Point>) {
    forall i, j :: 0 <= i < j < |s| ==> Precedes(s[i], s[j])
  }

  predicate Distinct(s: seq<Point>) {
    forall i, j :: 0 <= i < j < |s| ==> s[i] != s[j]
  }

  lemma RowMajorAppend(s: seq<Point>, t: seq<Point>)
    requires RowMajor(s) && RowMajor(t)
    requires forall p, q :: p in s && q in t ==> Precedes(p, q)
    ensures RowMajor(s + t)
  {
    forall i, j | 0 <= i < j < |s + t|
      ensures Precedes((s + t)[i], (s + t)[j])
    {
      if j < |s| {
        assert (s + t)[i] == s[i] && (s + t)[j] == s[j];
      } else if i < |s| {
        assert (s + t)[i] in s && (s + t)[j] in t;
      } else {
        assert (s + t)[i] == t[i - |s|] && (s + t)[j] == t[j - |s|];
      }
    }
  }

  /** The cells `(a, y), ..., (b - 1, y)` of one row, left to right. */
  function RowCells(y: int, a: int, b: int): (s: seq<Point>)
    requires a <= b
    ensures |s| == b - a
    decreases b - a
  {
    if b == a then [] else RowCells(y, a, b - 1) + [Point(b - 1, y)]
  }

  /** The cells of rows `ya, ..., yb - 1` between columns `x0` and `x1`, row by row. */
  function RowsCells(x0: int, x1: int, ya: int, yb: int): (s: seq<Point>)
    requires x0 <= x1 && ya <= yb
    ensures |s| == (yb - ya) * (x1 - x0)
    decreases yb - ya
  {
    if yb == ya then []
    else
      assert (yb - ya) * (x1 - x0) == (yb - 1 - ya) * (x1 - x0) + (x1 - x0);
      RowsCells(x0, x1, ya, yb - 1) + RowCells(yb - 1, x0, x1)
  }

  /** A row holds exactly the cells of that row between `a` and `b`, left to right. */
  lemma {:induction false} RowCellsOrder(y: int, a: int, b: int)
    requires a <= b
    ensures forall p :: p in RowCells(y, a, b) <==> p.y == y && a <= p.x < b
    ensures RowMajor(RowCells(y, a, b))
    decreases b - a
  {
    if b > a {
      RowCellsOrder(y, a, b - 1);
      RowMajorAppend(RowCells(y, a, b - 1), [Point(b - 1, y)]);
    }
  }

  /** Rows `ya` to `yb - 1` hold exactly the cells of those rows between `x0` and `x1`, in row-major order. */
  lemma {:induction false} RowsCellsOrder(x0: int, x1: int, ya: int, yb: int)
    requires x0 <= x1 && ya <= yb
    ensures forall p :: p in RowsCells(x0, x1, ya, yb) <==> ya <= p.y < yb && x0 <= p.x < x1
    ensures RowMajor(RowsCells(x0, x1, ya, yb))
    decreases yb - ya
  {
    if yb > ya {
      RowsCellsOrder(x0, x1, ya, yb - 1);
      RowCellsOrder(yb - 1, x0, x1);
      RowMajorAppend(RowsCells(x0, x1, ya, yb - 1), RowCells(yb - 1, x0, x1));
    }
  }

  /**
   * The order in which a pass visits the cells of `g`: every cell of the
   * region exactly once, rows top to bottom, each row left to right.
   */
  function Cells(g: Region): (s: seq<Point>)
    requires g.x0 <= g.x1 && g.y0 <= g.y1
    ensures |s| == (g.x1 - g.x0) * (g.y1 - g.y0)
    ensures forall p :: p in s <==> g.Contains(p)
    ensures RowMajor(s) && Distinct(s)
  {
    RowsCellsOrder(g.x0, g.x1, g.y0, g.y1);
    RowsCells(g.x0, g.x1, g.y0, g.y1)
  }

  /**
   * The cells a pass over `g` has visited when it is about to visit
   * `(x, y)`: all earlier rows, then the cells of row `y` left of `x`.
   */
  function Visited(g: Region, x: int, y: int): (s: seq<Point>)
    requires g.x0 <= x <= g.x1 && g.y0 <= y <= g.y1 && (y < g.y1 || x == g.x0)
    ensures forall p :: p in s ==> g.Contains(p)
  {
    RowsCellsOrder(g.x0, g.x1, g.y0, y);
    RowCellsOrder(y, g.x0, x);
    RowsCells(g.x0, g.x1, g.y0, y) + RowCells(y, g.x0, x)
  }

  /** Every cell visited so far lies in `g`, hence in the image. */
  lemma VisitedInside(g: Region, dimen: Size, x: int, y: int)
    requires g.Inside(dimen) && g.x0 <= x <= g.x1 && g.y0 <= y <= g.y1 && (y < g.y1 || x == g.x0)
    ensures AllInBounds(dimen, Visited(g, x, y))
  {
  }

  /** Visiting `(x, y)` extends the visited cells by exactly that cell. */
  lemma VisitedStep(g: Region, x: int, y: int)
    requires g.x0 <= x < g.x1 && g.y0 <= y < g.y1
    ensures Visited(g, x + 1, y) == Visited(g, x, y) + [Point(x, y)]
  {
    assert RowCells(y, g.x0, x + 1) == RowCells(y, g.x0, x) + [Point(x, y)];
  }

  /** Finishing row `y` is the same as starting row `y + 1`. */
  lemma VisitedRow(g: Region, y: int)
    requires g.x0 <= g.x1 && g.y0 <= y < g.y1
    ensures Visited(g, g.x1, y) == Visited(g, g.x0, y + 1)
  {
    assert RowCells(y + 1, g.x0, g.x0) == [];
  }

  /** Once every row is finished, the visited cells are `Cells(g)`. */
  lemma VisitedAll(g: Region)
    requires g.x0 <= g.x1 && g.y0 <= g.y1
    ensures Visited(g, g.x0, g.y1) == Cells(g)
  {
    assert RowCells(g.y1, g.x0, g.x0) == [];
  }

  lemma {:induction false} RowCellsSplit(y: int, a: int, b: int, c: int)
    requires a <= b <= c
    ensures RowCells(y, a, c) == RowCells(y, a, b) + RowCells(y, b, c)
    decreases c - b
  {
    if c > b {
      RowCellsSplit(y, a, b, c - 1);
    }
  }

  lemma {:induction false} RowsCellsSplit(x0: int, x1: int, ya: int, yb: int, yc: int)
    requires x0 <= x1 && ya <= yb <= yc
    ensures RowsCells(x0, x1, ya, yc) == RowsCells(x0, x1, ya, yb) + RowsCells(x0, x1, yb, yc)
    decreases yc - yb
  {
    if yc > yb {
      RowsCellsSplit(x0, x1, ya, yb, yc - 1);
    }
  }

  lemma SingleCell(q: Point)
    ensures RowCells(q.y, q.x, q.x + 1) == [q]
  {
    assert RowCells(q.y, q.x, q.x) == [];
  }

  /**
   * A pass over `g` reaches the cell `q` right after the cells of
   * `Visited(g, q.x, q.y)`, and visits only cells after `q` from then on.
   */
  lemma CellsSplitAt(g: Region, q: Point)
    requires g.x0 <= g.x1 && g.y0 <= g.y1 && g.Contains(q)
    ensures var v := Visited(g, q.x, q.y);
            |v| < |Cells(g)| && Cells(g)[..|v|] == v && Cells(g)[|v|] == q
  {
    var above := RowsCells(g.x0, g.x1, g.y0, q.y);
    var below := RowsCells(g.x0, g.x1, q.y + 1, g.y1);
    var left := RowCells(q.y, g.x0, q.x);
    var right := RowCells(q.y, q.x + 1, g.x1);
    RowsSplitAt(g, q.y);
    RowSplitAt(g, q);
    var tail := [q] + (right + below);
    assert Cells(g) == (above + left) + tail by {
      AppendAssoc(above, left, [q], right, below);
    }
    Prefix(above + left, tail);
  }

  /** The rows of `g` are those above row `y`, then row `y`, then those below it. */
  lemma RowsSplitAt(g: Region, y: int)
    requires g.x0 <= g.x1 && g.y0 <= y < g.y1
    ensures Cells(g) == RowsCells(g.x0, g.x1, g.y0, y) +
                        (RowCells(y, g.x0, g.x1) + RowsCells(g.x0, g.x1, y + 1, g.y1))
  {
    RowsCellsSplit(g.x0, g.x1, g.y0, y, g.y1);
    RowsCellsSplit(g.x0, g.x1, y, y + 1, g.y1);
    assert RowsCells(g.x0, g.x1, y, y + 1) == RowCells(y, g.x0, g.x1);
  }

  /** Row `q.y` of `g` is the cells left of `q`, then `q`, then the cells right of it. */
  lemma RowSplitAt(g: Region, q: Point)
    requires g.Contains(q)
    ensures RowCells(q.y, g.x0, g.x1) == RowCells(q.y, g.x0, q.x) + ([q] + RowCells(q.y, q.x + 1, g.x1))
  {
    RowCellsSplit(q.y, g.x0, q.x, g.x1);
    RowCellsSplit(q.y, q.x, q.x + 1, g.x1);
    SingleCell(q);
  }

  lemma AppendAssoc(a: seq<Point>, b: seq<Point>, c: seq<Point>, d: seq<Point>, e: seq<Point>)
    ensures a + ((b + (c + d)) + e) == (a + b) + (c + (d + e))
  {
  }

  lemma Prefix(a: seq<Point>, b: seq<Point>)
    requires b != []
    ensures |a| < |a + b| && (a + b)[..|a|] == a && (a + b)[|a|] == b[0]
  {
  }

  /**
   * A pass over a region that covers the image (an area at least as large
   * as the image) visits every pixel exactly once and nothing else.
   */
  lemma LargeAreaCoversImage(dimen: Size, area: Rectangle)
    requires dimen.width <= area.w as int && dimen.height <= area.h as int
    ensures var s := Cells(WithinArea(dimen, area));
            |s| == dimen.width * dimen.height && Distinct(s) &&
            forall p :: p in s <==> InBounds(dimen, p)
  {
    var g := WithinArea(dimen, area);
    assert g == Region(0, 0, dimen.width, dimen.height);
  }

  /** The three region builders agree on the whole image when started at the origin. */
  lemma RegionsAgreeAtOrigin(dimen: Size)
    requires dimen.width < 0x1_0000 && dimen.height < 0x1_0000
    ensures FromPosition(dimen, PointZero) == WholeImage(dimen)
    ensures WithinArea(dimen, Rectangle(dimen.width as U16, dimen.height as U16)) == WholeImage(dimen)
  {
  }

  /** One filter invocation as the engine makes it: the filter, its extra arguments and the window size. */
  datatype Invocation<!A> = Invocation(filter: Filter<A>, argc: nat, argv: Option<A>, size: nat) {

    predicate Valid() {
      OddSize(size)
    }

    /** The window the filter is given when the pass is at `p` over contents `src`. */
    function CentredAt(src: Raster, p: Point): MatrixView
      requires Valid()
    {
      MatrixView(size, HalfSize(size), p, src)
    }

    /** The colour the filter returns at `p` over contents `src`. */
    function Result(src: Raster, p: Point): Color
      requires Valid()
    {
      filter(argc, argv, CentredAt(src, p))
    }
  }

  predicate AllInBounds(dimen: Size, cells: seq<Point>) {
    forall p :: p in cells ==> InBounds(dimen, p)
  }

  /**
   * Contents after an in-place pass over `cells` in order: each visit runs
   * the filter over the contents as they are at that moment (including the
   * cells already rewritten) and stores its result at the visited cell.
   */
  function FoldInPlace<A>(call: Invocation<A>, r: Raster, cells: seq<Point>): (out: Raster)
    requires call.Valid() && r.WellFormed() && AllInBounds(r.dimen, cells)
    ensures out.WellFormed() && out.dimen == r.dimen
    decreases |cells|
  {
    if cells == [] then r
    else
      var n := |cells| - 1;
      assert forall p :: p in cells[..n] ==> p in cells;
      var before := FoldInPlace(call, r, cells[..n]);
      before.Put(cells[n], call.Result(before, cells[n]))
  }

  /**
   * Contents of the buffer after a buffered pass over `cells`: each visit
   * runs the filter over the unchanged source `src` and stores its result
   * in the buffer `dst` at the visited cell.
   */
  function FoldBuffered<A>(call: Invocation<A>, src: Raster, dst: Raster, cells: seq<Point>): (out: Raster)
    requires call.Valid() && dst.WellFormed() && AllInBounds(dst.dimen, cells)
    ensures out.WellFormed() && out.dimen == dst.dimen
    decreases |cells|
  {
    if cells == [] then dst
    else
      var n := |cells| - 1;
      assert forall p :: p in cells[..n] ==> p in cells;
      FoldBuffered(call, src, dst, cells[..n]).Put(cells[n], call.Result(src, cells[n]))
  }

  /** One more visit of an in-place pass. */
  lemma FoldInPlaceSnoc<A>(call: Invocation<A>, r: Raster, cells: seq<Point>, p: Point)
    requires call.Valid() && r.WellFormed() && AllInBounds(r.dimen, cells) && InBounds(r.dimen, p)
    ensures AllInBounds(r.dimen, cells + [p])
    ensures var before := FoldInPlace(call, r, cells);
            FoldInPlace(call, r, cells + [p]) == before.Put(p, call.Result(before, p))
  {
    assert (cells + [p])[..|cells|] == cells;
  }

  /** One more visit of a buffered pass. */
  lemma FoldBufferedSnoc<A>(call: Invocation<A>, src: Raster, dst: Raster, cells: seq<Point>, p: Point)
    requires call.Valid() && dst.WellFormed() && AllInBounds(dst.dimen, cells) && InBounds(dst.dimen, p)
    ensures AllInBounds(dst.dimen, cells + [p])
    ensures FoldBuffered(call, src, dst, cells + [p]) ==
            FoldBuffered(call, src, dst, cells).Put(p, call.Result(src, p))
  {
    assert (cells + [p])[..|cells|] == cells;
  }

  /** Visiting `(x, y)` during an in-place pass over `g`. */
  lemma InPlaceStep<A>(call: Invocation<A>, r: Raster, g: Region, dimen: Size, x: int, y: int)
    requires call.Valid() && r.WellFormed() && r.dimen == dimen && g.Inside(dimen)
    requires g.x0 <= x < g.x1 && g.y0 <= y < g.y1
    ensures AllInBounds(dimen, Visited(g, x, y)) && AllInBounds(dimen, Visited(g, x + 1, y))
    ensures var before := FoldInPlace(call, r, Visited(g, x, y));
            FoldInPlace(call, r, Visited(g, x + 1, y)) == before.Put(Point(x, y), call.Result(before, Point(x, y)))
  {
    VisitedInside(g, dimen, x, y);
    VisitedStep(g, x, y);
    FoldInPlaceSnoc(call, r, Visited(g, x, y), Point(x, y));
  }

  /** Visiting `(x, y)` during a buffered pass over `g`. */
  lemma BufferedStep<A>(call: Invocation<A>, src: Raster, dst: Raster, g: Region, dimen: Size, x: int, y: int)
    requires call.Valid() && dst.WellFormed() && dst.dimen == dimen && g.Inside(dimen)
    requires g.x0 <= x < g.x1 && g.y0 <= y < g.y1
    ensures AllInBounds(dimen, Visited(g, x, y)) && AllInBounds(dimen, Visited(g, x + 1, y))
    ensures FoldBuffered(call, src, dst, Visited(g, x + 1, y)) ==
            FoldBuffered(call, src, dst, Visited(g, x, y)).Put(Point(x, y), call.Result(src, Point(x, y)))
  {
    VisitedInside(g, dimen, x, y);
    VisitedStep(g, x, y);
    FoldBufferedSnoc(call, src, dst, Visited(g, x, y), Point(x, y));
  }

  /** An in-place pass leaves every cell it does not visit as it was. */
  lemma {:induction false} FoldInPlaceUnvisited<A>(call: Invocation<A>, r: Raster, cells: seq<Point>, q: Point)
    requires call.Valid() && r.WellFormed() && AllInBounds(r.dimen, cells)
    requires InBounds(r.dimen, q) && q !in cells
    ensures FoldInPlace(call, r, cells).ColorAt(q) == r.ColorAt(q)
    decreases |cells|
  {
    if cells != [] {
      var n := |cells| - 1;
      assert forall p :: p in cells[..n] ==> p in cells;
      var before := FoldInPlace(call, r, cells[..n]);
      FoldInPlaceUnvisited(call, r, cells[..n], q);
      PutColorAt(before, cells[n], call.Result(before, cells[n]), q);
    }
  }

  /**
   * In an in-place pass over distinct cells, the `k`-th visited cell ends up
   * holding what the filter returned for a window centred on that cell over
   * the contents left by the first `k` visits.
   */
  lemma {:induction false} FoldInPlaceVisited<A>(call: Invocation<A>, r: Raster, cells: seq<Point>, k: nat)
    requires call.Valid() && r.WellFormed() && AllInBounds(r.dimen, cells)
    requires Distinct(cells) && k < |cells|
    ensures AllInBounds(r.dimen, cells[..k])
    ensures FoldInPlace(call, r, cells).ColorAt(cells[k]) ==
            call.Result(FoldInPlace(call, r, cells[..k]), cells[k])
    decreases |cells|
  {
    var n := |cells| - 1;
    assert forall p :: p in cells[..n] ==> p in cells;
    assert forall p :: p in cells[..k] ==> p in cells;
    var before := FoldInPlace(call, r, cells[..n]);
    PutColorAt(before, cells[n], call.Result(before, cells[n]), cells[k]);
    if k < n {
      assert Distinct(cells[..n]);
      FoldInPlaceVisited(call, r, cells[..n], k);
      assert cells[..n][..k] == cells[..k];
    } else {
      assert cells[..k] == cells[..n];
    }
  }

  /**
   * After a buffered pass, a cell of the buffer holds the filter's result
   * over the source when the pass visited it, and its old colour otherwise.
   */
  lemma {:induction false} FoldBufferedAt<A>(call: Invocation<A>, src: Raster, dst: Raster, cells: seq<Point>, q: Point)
    requires call.Valid() && dst.WellFormed() && AllInBounds(dst.dimen, cells)
    requires InBounds(dst.dimen, q)
    ensures FoldBuffered(call, src, dst, cells).ColorAt(q) ==
            if q in cells then call.Result(src, q) else dst.ColorAt(q)
    decreases |cells|
  {
    if cells != [] {
      var n := |cells| - 1;
      assert forall p :: p in cells[..n] ==> p in cells;
      assert cells == cells[..n] + [cells[n]];
      FoldBufferedAt(call, src, dst, cells[..n], q);
      PutColorAt(FoldBuffered(call, src, dst, cells[..n]), cells[n], call.Result(src, cells[n]), q);
    }
  }

  /**
   * What an in-place pass over `g` leaves at each pixel `q`: outside `g`
   * its old colour; inside `g` the filter's result for a window centred
   * on `q` over the contents as the pass left them just before reaching
   * `q` (earlier rows and the cells to the left of `q` already rewritten).
   */
  lemma InPlacePassAt<A>(call: Invocation<A>, r: Raster, g: Region, q: Point)
    requires call.Valid() && r.WellFormed() && g.Inside(r.dimen) && InBounds(r.dimen, q)
    ensures AllInBounds(r.dimen, Cells(g))
    ensures g.Contains(q) ==> AllInBounds(r.dimen, Visited(g, q.x, q.y))
    ensures FoldInPlace(call, r, Cells(g)).ColorAt(q) ==
            if g.Contains(q) then call.Result(FoldInPlace(call, r, Visited(g, q.x, q.y)), q) else r.ColorAt(q)
  {
    if g.Contains(q) {
      CellsSplitAt(g, q);
      FoldInPlaceVisited(call, r, Cells(g), |Visited(g, q.x, q.y)|);
    } else {
      FoldInPlaceUnvisited(call, r, Cells(g), q);
    }
  }

  /**
   * What a buffered pass over `g` leaves at each pixel `q` of the buffer:
   * inside `g` the filter's result for a window centred on `q` over the
   * source, outside `g` the buffer's old colour.
   */
  lemma BufferedPassAt<A>(call: Invocation<A>, src: Raster, dst: Raster, g: Region, q: Point)
    requires call.Valid() && dst.WellFormed() && g.Inside(dst.dimen) && InBounds(dst.dimen, q)
    ensures AllInBounds(dst.dimen, Cells(g))
    ensures FoldBuffered(call, src, dst, Cells(g)).ColorAt(q) ==
            if g.Contains(q) then call.Result(src, q) else dst.ColorAt(q)
  {
    FoldBufferedAt(call, src, dst, Cells(g), q);
  }

  /** The filter looks at nothing but the window's position and the colour at its centre. */
  ghost predicate ReadsOnlyCentre<A>(call: Invocation<A>, g: (Point, Color) -> Color) {
    forall v: MatrixView | v.image.WellFormed() :: call.filter(call.argc, call.argv, v) == g(v.pos, v.CentreColor())
  }

  /**
   * For a filter that reads only the centre of its window, an in-place pass
   * over distinct cells and a buffered pass into a copy of the source give
   * identical contents.
   */
  lemma CentreOnlyPassesAgree<A>(call: Invocation<A>, g: (Point, Color) -> Color, r: Raster, cells: seq<Point>)
    requires call.Valid() && r.WellFormed() && AllInBounds(r.dimen, cells)
    requires Distinct(cells) && ReadsOnlyCentre(call, g)
    ensures FoldInPlace(call, r, cells) == FoldBuffered(call, r, r, cells)
  {
    var inPlace := FoldInPlace(call, r, cells);
    var buffered := FoldBuffered(call, r, r, cells);
    forall q | InBounds(r.dimen, q)
      ensures inPlace.ColorAt(q) == buffered.ColorAt(q)
    {
      FoldBufferedAt(call, r, r, cells, q);
      if q in cells {
        var k :| 0 <= k < |cells| && cells[k] == q;
        FoldInPlaceVisited(call, r, cells, k);
        var before := FoldInPlace(call, r, cells[..k]);
        assert q !in cells[..k];
        FoldInPlaceUnvisited(call, r, cells[..k], q);
        assert call.CentredAt(before, q).CentreColor() == call.CentredAt(r, q).CentreColor();
      } else {
        FoldInPlaceUnvisited(call, r, cells, q);
      }
    }
    RasterExtensional(inPlace, buffered);
  }
}
