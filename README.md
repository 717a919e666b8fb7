# libkempozer image core in Dafny

This project models the image core of libkempozer, a small C image library. The core is declared in `src/kmz_core.h` and has three parts:

- **Image** (`KmzImage`). An image owns a buffer of `width * height` packed 32-bit ARGB colours. It can say whether a coordinate lies inside it, and it reads or writes a colour by point or by `(x, y)`.
- **Matrix** (`KmzMatrix`). A matrix is a square window of odd size `size` over an image that it does not own. Its half size `hsize` is fixed and its centre `pos` can move. It reads and writes colours at window cells given relative to that centre.
- **Filter engine**. There are eight `apply_*filter*` passes. Each walks a region of the image row by row, puts a matrix on every cell and calls a caller-supplied filter on it. The returned colour is stored at that cell, either in the image itself (in place) or in a separate buffer image (buffered).

The library's headers declare these operations but do not contain their bodies. The model therefore follows the names, the `@const` annotations and the doc comments, and makes these choices:

- Pixels are stored row by row: `(x, y)` lives at slot `y * width + x`.
- A window of size `size` (odd, so that it has a centre) has `hsize = (size - 1) / 2`. Window cell `(wx, wy)` is the absolute pixel `pos + (wx - hsize, wy - hsize)`, so cell `(hsize, hsize)` is `pos` itself.
- When a window cell lies outside the image, a read gives `Transparent` (0) and a write is dropped.
- A pass visits rows top to bottom and, within a row, cells left to right.
- A rectangle has only a width and a height. The whole-image passes cover `[0, width) x [0, height)`. The `_at` passes cover `[pos.x, width) x [pos.y, height)`. The `_to` passes cover `[0, area.w) x [0, area.h)`. Each region is intersected with the image.
- The filter is a function of the argument count, the opaque argument (`None` for a null pointer) and the window as a value, which holds the window's shape, its centre and the image's contents at the moment of the call. The passes without arguments hand the filter a count of 0 and `None`.
- In an in-place pass each filter call sees the cells already rewritten by earlier visits. In a buffered pass every call sees the untouched source.
- The source uses the names `KmzSize`, `KmzPoint` and `KmzRectangle`, while `src/kmz_geometry.h` declares `kmz_point` and `kmz_rectangle`. The model has one datatype per concept: `Size`, `Point` and `Rectangle`. `KmzSize`'s declaration is not part of this model. It is modelled as two unsigned dimensions.

The modules follow the structure of the library:

- `Geometry` holds the value types.
- `Pixels` holds colours, row-major offsets, image contents as a value (`Raster`) and the window as a filter sees it (`MatrixView`).
- `Traversal` holds regions, the row-major visiting order and the contents a pass leaves behind: `FoldInPlace` and `FoldBuffered`, the specification functions of the passes.
- `Core` holds the classes `Image` and `Matrix`. The passes in `Core` are loops proved against `FoldInPlace` and `FoldBuffered`. The lemmas in `Traversal` then say, pixel by pixel, what those folds contain.

## Model

| member | source | states |
|---|---|---|
| Geometry.RectangleFromDimen | src/kmz_geometry.h:23 | each dimension below 2^16 is stored unchanged in its field; a dimension of 2^16 or more is stored as a smaller value, because the fields are 16 bits wide |
| Geometry.RectangleDimenRoundTrip | src/kmz_geometry.h:7-9 | rebuilding a rectangle from its own width and height gives the same rectangle |
| Geometry.RectangleFromDimenWraps | src/kmz_geometry.h:23 | widths and heights that differ by multiples of 2^16 give the same rectangle, so each field holds the low 16 bits of its dimension |
| Pixels.Offset | src/kmz_core.h:14-22 | the slot of an in-bounds coordinate lies inside a buffer of `width * height` colours |
| Pixels.OffsetInjective | src/kmz_core.h:14-22 | two in-bounds coordinates share a slot only when they are equal |
| Pixels.OffsetOnto | src/kmz_core.h:14-22 | every slot of the buffer is the slot of some in-bounds coordinate |
| Pixels.PutColorAt | src/kmz_core.h:57-75 | after a write at a valid point, reading that point gives the written colour and every other point keeps its colour |
| Pixels.RasterExtensional | src/kmz_core.h:10-23 | two images of equal dimensions that agree at every coordinate have equal contents |
| Pixels.HalfSize | src/kmz_core.h:30-34 | the half size of an odd window size `s` is the `h` with `2h + 1 == s` |
| Pixels.Resolve | src/kmz_core.h:97-115 | window cell `(wx, wy)` is the absolute pixel `pos + (wx - hsize, wy - hsize)`; the mapping is invertible, and cell `(hsize, hsize)` is `pos` |
| Pixels.MatrixView.ColorAt | src/kmz_core.h:97-105 | a window read at an in-image pixel gives the image colour there; any colour other than `Transparent` comes from a pixel inside the image |
| Pixels.MatrixView.Write | src/kmz_core.h:107-115 | a window write outside the image leaves the contents unchanged; inside, the target pixel holds the new colour and every other pixel keeps its colour |
| Pixels.WindowCovers | src/kmz_core.h:26-40 | the cells of a window centred at `pos` reach exactly the points at most `hsize` away from `pos` on each axis |
| Pixels.CentreIsPosition | src/kmz_core.h:97-105 | window cell `(hsize, hsize)` is the matrix position; its colour is the image colour there, or `Transparent` outside the image |
| Pixels.CornerAtOriginIsTransparent | src/kmz_core.h:87-100 | a window of size 3 or more on a fresh matrix (centred at the origin) reads its top-left cell as `Transparent` |
| Pixels.WindowWriteRead | src/kmz_core.h:97-115 | a window write followed by a window read at the same position yields the written colour for the same in-image pixel and the old colour for every other cell |
| Traversal.Clip | src/kmz_core.h:132-171 | a clipped region lies inside the image and contains exactly the image points of the requested rectangle |
| Traversal.WholeImage | src/kmz_core.h:132-135 | the region of the whole-image passes contains exactly the points of the image |
| Traversal.FromPosition | src/kmz_core.h:137-140 | the region of the `_at` passes contains exactly the image points right of and below `pos` |
| Traversal.WithinArea | src/kmz_core.h:142-145 | the region of the `_to` passes contains exactly the image points with `x < area.w` and `y < area.h` |
| Traversal.Cells | src/kmz_core.h:132-171 | a pass visits every point of its region exactly once, nothing outside it, in row-major order |
| Traversal.LargeAreaCoversImage | src/kmz_core.h:142-150 | a `_to` pass with an area at least as large as the image visits each of its `width * height` pixels exactly once |
| Traversal.RegionsAgreeAtOrigin | src/kmz_core.h:132-145 | the `_at` region from the origin and the `_to` region of the image's own size both equal the whole-image region |
| Traversal.FoldInPlace | src/kmz_core.h:132-150 | the contents after an in-place pass over a sequence of cells: each visit stores the filter's result over the contents at that moment at the visited cell; the dimensions are unchanged |
| Traversal.FoldBuffered | src/kmz_core.h:152-171 | the buffer after a buffered pass over a sequence of cells: each visit stores the filter's result over the unchanged source at the visited cell of the buffer; the dimensions are unchanged |
| Traversal.FoldInPlaceUnvisited | src/kmz_core.h:132-150 | an in-place pass leaves every pixel it does not visit unchanged |
| Traversal.FoldInPlaceVisited | src/kmz_core.h:132-150 | in an in-place pass over distinct cells, the k-th visited cell ends up holding the filter's result for a window centred there over the contents left by the first k visits |
| Traversal.FoldBufferedAt | src/kmz_core.h:152-171 | after a buffered pass, a buffer pixel holds the filter's result over the source if it was visited, and its old colour otherwise |
| Traversal.InPlacePassAt | src/kmz_core.h:132-150 | after an in-place pass over a region, a pixel outside the region is unchanged; a pixel inside holds the filter's result for a window centred on it over the contents as they were when the pass reached it |
| Traversal.BufferedPassAt | src/kmz_core.h:152-171 | after a buffered pass over a region, a buffer pixel inside the region holds the filter's result for a window centred on it over the source; outside, it keeps its old colour |
| Traversal.CentreOnlyPassesAgree | src/kmz_core.h:132-171 | for a filter that reads only its window's centre, an in-place pass and a buffered pass into a copy of the image give the same contents |
| Core.Image.FromBuffer | src/kmz_core.h:52-55 | the new image has the given dimensions, adopts the given buffer and has `len == width * height` |
| Core.Image.IsValid | src/kmz_core.h:77-80 | a point is valid exactly when `0 <= x < width` and `0 <= y < height`, and then its slot lies inside the buffer |
| Core.Image.IsValidXY | src/kmz_core.h:82-85 | the unsigned `(x, y)` form agrees with `IsValid` on the point `(x, y)` |
| Core.Image.GetArgbAt | src/kmz_core.h:57-60 | returns the colour of the image at a valid point |
| Core.Image.GetArgbAtXY | src/kmz_core.h:62-65 | returns the colour of the image at the valid point `(x, y)` |
| Core.Image.SetArgbAt | src/kmz_core.h:67-70 | the new contents are the old ones with exactly the pixel at `point` replaced by `color` |
| Core.Image.SetArgbAtXY | src/kmz_core.h:72-75 | the new contents are the old ones with exactly the pixel at `(x, y)` replaced by `color` |
| Core.Image.GetMatrix | src/kmz_core.h:117-120 | returns a new matrix of the given size over this image, centred at the origin |
| Core.Image.GetMatrixAt | src/kmz_core.h:122-125 | returns a new matrix of the given size over this image, centred at `point` |
| Core.Image.GetMatrixAtXY | src/kmz_core.h:127-130 | returns a new matrix of the given size over this image, centred at `(x, y)` |
| Core.Image.ApplyInPlace | src/kmz_core.h:132-150 | the row-by-row loop over a region leaves exactly the contents of an in-place pass over the region's cells in row-major order |
| Core.Image.ApplyToBuffer | src/kmz_core.h:152-171 | the row-by-row loop leaves the source unchanged and leaves in the buffer exactly the contents of a buffered pass over the region's cells |
| Core.Image.ApplyFilter | src/kmz_core.h:132-135 | the image ends as an in-place pass over the whole image leaves it |
| Core.Image.ApplyFilterAt | src/kmz_core.h:137-140 | the image ends as an in-place pass over the points right of and below `pos` leaves it |
| Core.Image.ApplyFilterTo | src/kmz_core.h:142-145 | the image ends as an in-place pass over `[0, area.w) x [0, area.h)` within the image leaves it |
| Core.Image.ApplyFilterWithArgsTo | src/kmz_core.h:147-150 | as `ApplyFilterTo`, with `argc` and `argv` handed to every filter call |
| Core.Image.ApplyBufferedFilter | src/kmz_core.h:152-155 | the source is unchanged and the buffer ends as a buffered pass over the whole image leaves it |
| Core.Image.ApplyBufferedFilterAt | src/kmz_core.h:157-160 | the source is unchanged and the buffer ends as a buffered pass over the points right of and below `pos` leaves it |
| Core.Image.ApplyBufferedFilterTo | src/kmz_core.h:162-165 | the source is unchanged and the buffer ends as a buffered pass over `[0, area.w) x [0, area.h)` within the image leaves it |
| Core.Image.ApplyBufferedFilterWithArgsTo | src/kmz_core.h:167-171 | as `ApplyBufferedFilterTo`, with `argc` and `argv` handed to every filter call |
| Core.Matrix.FromImage | src/kmz_core.h:87-90 | the new matrix is over the given image, has the given size and is centred at the origin |
| Core.Matrix.FromImageAndPos | src/kmz_core.h:92-95 | the new matrix is over the given image, has the given size and is centred at `point` |
| Core.Matrix.GetColorAt | src/kmz_core.h:97-100 | returns the image colour at the window cell's absolute pixel, or `Transparent` when that pixel is outside the image |
| Core.Matrix.GetColorAtXY | src/kmz_core.h:102-105 | the same for the window cell `(x, y)` |
| Core.Matrix.SetColorAt | src/kmz_core.h:107-110 | writes `color` at the window cell's absolute pixel when it is inside the image, and leaves the buffer unchanged otherwise |
| Core.Matrix.SetColorAtXY | src/kmz_core.h:112-115 | the same for the window cell `(x, y)` |

## Left out

- `KmzImage__new_from_gd_2x` (src/kmz_core.h:47-50) is not modelled. The GD 2x file format and its decoder (`kmz_gd_2x_image_file.h`) are not part of this model.
- The channels of a `kmz_color_32` are not modelled. `kmz_color.h` is not part of this model, so a colour is an opaque 32-bit value.
- What a filter computes is not specified. A filter is any function of its arguments and its window.
- A filter that writes through its matrix during a pass is not modelled. The filter receives the window as a value, a snapshot of the image at the time of the call.
- The `void *` payload is a generic value that is only forwarded. It is `None` when the pointer is null. Its contents are never inspected.
- Heap allocation and freeing of images and matrices are not modelled. New matrices are fresh objects, and a failed allocation (a null result) is not modelled.
- Machine widths are not modelled: `size_t` and `ssize_t` are unbounded integers. The only width modelled is the 16-bit fields of a rectangle. Overflow of `y * width + x` and of `pos + (wx - hsize)` is not modelled.
- Core.Image.IsValid: returns a boolean where the library returns a `size_t` used as a truth value.
- Core.Image.GetArgbAt: requires a valid point, like the other raw image accessors. Their behaviour on an invalid point is left undefined, since their doc comments describe accesses to pixels of the image.
- Core.Image.FromBuffer: requires the buffer to hold exactly `width * height` colours, since the header gives no length for it.
- Core.Image.GetMatrix: requires an odd window size, as do the matrix constructors and every filter pass. The behaviour for an even size is not modelled.
- Core.Image.ApplyToBuffer: requires the buffer to have the source's dimensions and a buffer array distinct from the source's. Aliasing the source with its buffer is not modelled.
- `kmz_point_from_coord` (src/kmz_geometry.h:25) is the `Point` constructor itself. `kmz_point__ZERO` and `kmz_rectangle__ZERO` are `PointZero` and `RectangleZero`.
- The `stdio.h` and `stdint.h` includes are not modelled.
