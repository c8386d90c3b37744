# Verified model of the QR symbol geometry in hackattic_reading_qr

The program reads a photographed version 1 QR symbol (21 x 21 modules) from a
grayscale image and normalises it before decoding. It finds the symbol's
bounding box, measures and removes the skew, crops the symbol again, and turns
it by a quarter turn so that its identifier strips sit on the top and the left.
This project models the integer geometry and decision logic of that pipeline
in `src/main.rs` and proves properties of it in Dafny.

- `raster.dfy` (module `Raster`): the 8-bit grayscale image and `get_pixel`.
- `bounding_box.dfy` (module `BoundingBox`): `shrinkwrap_bounding_box`.
  - An imperative method keeps the source's four `while` loops, each with a
    `found_edge` flag and an inner `for` that breaks.
  - The method is proved equal to `Shrinkwrap`, which composes four recursive
    pass functions.
  - Each pass function states which lines it skipped (no pixel darker than 16)
    and why it stopped.
- `placement.dfy` (module `Placement`): the `u32` arithmetic of `decode_qr`.
  - The translation offsets that move the box to the bottom-right corner.
  - The two corner searches that give the skew triangle's legs.
  - The crop rectangle `(x1, y1, x2 - x1, y2 - y1)` and the crop's index
    mapping.
  - Every subtraction has a `nat` result, so none of them can wrap.
- `orientation.dfy` (module `Orientation`):
  - `ID_PATTERN`.
  - The pitch `round(width / 21)`, written as `(width + 10) / 21`.
  - The strip sampling loops: module `i` is sampled at `i * pitch + pitch / 2`
    and is dark when its intensity is below 127.
  - The priority decision between `rotate90`, `rotate180`, `rotate270` and no
    rotation.
  - The logical 21 x 21 module grid with the three quarter turns. These give
    the round-trip property of the decision.
- `decode.dfy` (module `Decode`): `decode_qr` from the first shrinkwrap to the
  choice of rotation.
  - The library transforms `geom::translate` and `geom::rotate` are
    parameters: images of the input's size.
  - A `get_pixel` outside the crop, which panics in the source, is the error
    `PixelOutOfBounds`.

Where the system's written design and the code differ, the model follows the
code:

- The top pass scans columns `0..=x2` of each row, not `x1..=x2`.
  - This does not matter for the two searches that start at `x1 = 0`.
  - It does matter for the search down the left column at line 138 (see
    Findings). `Decode.Measure` uses that search as written; the intended
    search is modelled beside it as `Placement.IntendedSkewLegs`.
- `ID_PATTERN` ends with seven `true` values. It is a run of seven dark
  modules, the alternating run, then another seven dark modules (lines 40-44).
  So it reads the same backwards.
- A box one pixel wide or high does not make `crop_imm` fail. It gives an empty
  crop, and the first `get_pixel` on that crop panics. `OrientSymbol` models
  this as an error.

## Model

| member | source | states |
|---|---|---|
| `BoundingBox.ShrinkwrapBoundingBox` | src/main.rs:46-114 | The four loops with their inner `for`/`break` scans return exactly the four-pass greedy shrink `Shrinkwrap` of the start box. |
| `BoundingBox.Shrinkwrap` | src/main.rs:46-113 | The passes run top, left, bottom, right, each on the coordinates the previous passes produced. The result is ordered (`x1' <= x2'`, `y1' <= y2'`) and nested in the start box, so nothing underflows. |
| `BoundingBox.TopEdge` | src/main.rs:49-63 | The top edge ends in `y1..=y2`. Every row it skipped has no pixel below 16 in columns `0..=x2`. The row it stopped on has such a pixel or is `y2`. |
| `BoundingBox.LeftEdge` | src/main.rs:65-79 | The left edge ends in `x1..=x2`. Every column it skipped has no pixel below 16 in rows `y1'..=y2`, using the updated `y1'`. The column it stopped on has such a pixel or is `x2`. |
| `BoundingBox.BottomEdge` | src/main.rs:81-95 | The bottom edge ends in `y1'..=y2`. Every row it skipped has no pixel below 16 in columns `x1'..=x2`. The row it stopped on has such a pixel or is `y1'`. |
| `BoundingBox.RightEdge` | src/main.rs:97-111 | The right edge ends in `x1'..=x2`. Every column it skipped has no pixel below 16 in rows `y1'..=y2'`. The column it stopped on has such a pixel or is `x1'`. |
| `BoundingBox.AllLightCollapses` | src/main.rs:49-111 | With no pixel below 16 in columns `0..=x2`, rows `y1..=y2`, the result collapses to the bottom-right point `(x2, y2, x2, y2)`. |
| `BoundingBox.EdgesHoldIsFixpoint` | src/main.rs:49-111 | Suppose every edge of a box already has a pixel below 16 in the range its pass scans, or has met the opposite edge. Then shrinking returns that box unchanged. |
| `BoundingBox.TightImageIsFixpoint` | src/main.rs:46-114 | An image with dark pixels on its top row, bottom row, left column and right column has the whole image `(0, 0, w - 1, h - 1)` as its bounding box. |
| `BoundingBox.Idempotent` | src/main.rs:46-114 | Shrinking an already shrunk box changes nothing. |
| `BoundingBox.SolidRectangleFound` | src/main.rs:46-114 | Take a solid block of dark pixels that is alone in the region the passes scan. The block's exact coordinates are returned. |
| `Placement.FullBox` | src/main.rs:121 | The start box `(0, 0, w - 1, h - 1)` is ordered and inside the image when the image is not empty. |
| `Placement.TranslationOffsets` | src/main.rs:125-134 | `x2 + offset_x == w - 1` and `y2 + offset_y == h - 1`. The shifted `x1 + offset_x <= w - 1` and `y1 + offset_y <= h - 1`. The box keeps its width. |
| `Placement.TopRowCorner` | src/main.rs:137 | The shrinkwrap confined to row `y1` returns the first column from `x1` whose pixel in row `y1` is below 16, or `w - 1` if there is none. |
| `Placement.LeftColumnCornerAsWritten` | src/main.rs:138 | As written, the shrinkwrap confined to column `x1` returns the first row from `y1` with a pixel below 16 anywhere in columns `0..=x1`, or `h - 1`. |
| `Placement.LeftColumnCorner` | src/main.rs:136-138 | The search the comment describes: the first row from `y1` whose pixel in column `x1` is below 16, or `h - 1`. |
| `Placement.LeftColumnCornerDiffers` | src/main.rs:136-138 | On a 2 x 2 image, the as-written search stops at row 0 while column 1's first dark pixel is in row 1. |
| `Placement.SkewLegs` | src/main.rs:137-142 | `tri_w` and `tri_h` are the distances from the corner to the results of the two searches as written, and both stay inside the image, so the `u32` subtractions cannot wrap. `tri_w` is zero exactly when the corner pixel is dark or in the last column. `tri_h` is zero exactly when row `y1` has a pixel below 16 anywhere in columns `0..=x1`, or `y1` is the last row. |
| `Placement.IntendedSkewLegs` | src/main.rs:136-142 | With the column search the comment describes, both legs are zero exactly when the corner pixel is dark (or on the border), so a dark corner pixel makes the angle 0/0. |
| `Placement.SkewLegsDiffer` | src/main.rs:136-142 | On the 2 x 2 image, from the light corner `(1, 0)`, the program's `tri_h` is 0 while the intended one is 1. |
| `Placement.CropRect` | src/main.rs:158 | The crop rectangle starts at `(x1, y1)` and ends at `x2` and `y2` exclusive. So its width and height leave out the box's last column and last row. |
| `Placement.Crop` | src/main.rs:158 | For a rectangle inside the image, crop pixel `(i, j)` is image pixel `(x + i, y + j)`, and the crop has the rectangle's size. |
| `Placement.CropOfBox` | src/main.rs:157-158 | The crop of a found box lies inside the image. Each crop pixel comes from the box with its last column and last row left out. The crop is empty exactly when the box is one pixel wide or one pixel high. |
| `Orientation.Pitch` | src/main.rs:163 | The pitch `p` satisfies `21p - 10 <= width <= 21p + 10`. So `p` is the integer nearest to `width / 21`. |
| `Orientation.CentreBelowLast` | src/main.rs:170-190 | No module's centre `i * p + p / 2` lies beyond module 20's. |
| `Orientation.SampleStrips` | src/main.rs:165-190 | Entry `i` of `id_upper` / `id_lower` is true exactly when pixel `(i*p + p/2, 6*p + p/2)` / `(i*p + p/2, 14*p + p/2)` is below 127. Entry `i` of `id_left` / `id_right` is true exactly when pixel `(6*p + p/2, i*p + p/2)` / `(14*p + p/2, i*p + p/2)` is below 127. Every strip has 21 entries. |
| `Orientation.ChooseRotation` | src/main.rs:194-202 | The priority order. `rotate90` exactly when lower and left match. `rotate180` exactly when they do not, but right and lower match. No rotation exactly when none of lower-left, right-lower and upper-right matches. |
| `Orientation.IdPatternPalindrome` | src/main.rs:40-44 | `ID_PATTERN` reads the same reversed. |
| `Orientation.RotateCw` | src/main.rs:195 | `rotate90` on the module grid: module `(c, r)` moves to `(20 - r, c)`. |
| `Orientation.RotateHalf` | src/main.rs:197 | `rotate180` on the module grid: module `(c, r)` moves to `(20 - c, 20 - r)`. |
| `Orientation.RotateCcw` | src/main.rs:199 | `rotate270` on the module grid: module `(c, r)` moves to `(r, 20 - c)`. |
| `Orientation.Apply` | src/main.rs:194-202 | Applying a chosen rotation to a 21 x 21 grid gives a 21 x 21 grid. |
| `Orientation.StripsOf` | src/main.rs:170-190 | The strips of a module grid are its rows 6 and 14 and its columns 6 and 14, each 21 long. |
| `Orientation.SampledGrid` | src/main.rs:170-190 | The grid of all module-centre samples: module `(c, r)` is dark exactly when its centre pixel is below 127. |
| `Orientation.SampledStripsOfGrid` | src/main.rs:170-190 | The four sampled strips are exactly rows 6 and 14 and columns 6 and 14 of the sampled module grid. |
| `Orientation.StripsOfRotated` | src/main.rs:194-199 | Each quarter turn moves the four strips to the other positions, and reverses a strip where the turn runs it backwards. |
| `Orientation.ReverseMatches` | src/main.rs:40-44 | A strip matches `ID_PATTERN` exactly when its reverse does. |
| `Orientation.RotationMovesPatternTopLeft` | src/main.rs:192-202 | Whenever the decision rotates, the chosen turn leaves module row 6 and module column 6, the top and left strips, equal to `ID_PATTERN`. |
| `Orientation.QuarterTurnsCompose` | src/main.rs:195-199 | A clockwise then counter-clockwise quarter turn, two half turns, or counter-clockwise then clockwise give back the grid. |
| `Orientation.RestoresUpright` | src/main.rs:192-202 | An upright grid, turned by any of the four rotations, is turned back to exactly the upright grid. An upright grid has matching strips at the top and left only. |
| `Orientation.WholeModulePitch` | src/main.rs:163-190 | A square crop of 21k pixels, k >= 1, has pitch k, and every sample of it is inside the crop. |
| `Orientation.SquareCropSampling` | src/main.rs:163-190 | A square crop is too small to sample exactly when module 20's centre `20p + p/2` reaches its width. From 431 pixels on every sample is inside. A 200-pixel crop gets pitch 10 and still panics. |
| `Orientation.TightSymbolCrop` | src/main.rs:158-190 | A crop one pixel short of `21k`, which line 158 gives for a tight symbol of `k` pixels per module, has pitch `k`. Its samples are all inside exactly when `k >= 3`, so symbols with 1- or 2-pixel modules panic. |
| `Orientation.NarrowCropOutOfBounds` | src/main.rs:163-190 | A crop 11 to 20 pixels wide gets pitch 1, and module 20's centre then lies outside it, so sampling panics. |
| `Decode.Measure` | src/main.rs:120-142 | The input is shrinkwrapped from the whole image. The offsets take the box to the bottom-right corner. The translated corner is the box's corner plus the offsets. The legs are `SkewLegs` of the translated image at that corner, using the searches as written, and the corner plus the legs stays inside the image. |
| `Decode.OrientSymbol` | src/main.rs:157-202 | The crop is that of the full-image shrinkwrap on the corrected image. There is an error exactly when module 20's centre lies outside the crop; this holds for every empty crop. Otherwise the strips are the sampled ones and the rotation is `ChooseRotation` of them. |

The contracts above are written in these definitions:

- `Raster.GrayImage.Pixel` is `get_pixel(x, y)` (lines 51-108, 170-190).
  Its precondition is the bounds check whose failure panics in the source.
- `Orientation.ID_PATTERN` is the constant of lines 40-44.
- `Orientation.ModuleCentre` is the sampling coordinate `i * pitch + pitch / 2`
  (lines 170-190).
- The predicates `ModuleDark`, `SamplesInBounds`, `SampledFrom`, `Upright`,
  `IsGrid`, `RowHasEdge`, `ColumnHasEdge` and `IsEdgePixel`.

## Left out

- `geom::translate` and `geom::rotate` (lines 128-131, 147-153), their pixel
  semantics and the bilinear interpolation are not modelled. They are library
  calls.
  - `Decode.Measure` takes the translated image as a parameter of the input's
    size.
  - `Decode.OrientSymbol` takes the corrected image as a parameter.
- The angle `atan(tri_h / tri_w)` (line 144) is not modelled, because it is
  floating point. Only the integer legs are modelled.
- `rotate90`, `rotate180` and `rotate270` (lines 195-199) act on pixel images
  in the source. The model applies them only to the logical 21 x 21 module
  grid. Sampling a rotated image gives the rotated module grid only when the
  pitch divides evenly; that is not claimed.
- `Orientation.Pitch`: the f32 division and rounding of line 163 are replaced
  by the integer `(width + 10) / 21`. These agree apart from f32 precision.
- `Decode.Measure` and `Decode.OrientSymbol` require an image at least one
  pixel wide and high. For an empty image, `width() - 1` on `u32` wraps or
  panics, and that path is not modelled.
- `Placement.Crop` requires the rectangle to lie inside the image, so the
  clamping `crop_imm` does outside the image is not modelled.
  `Placement.CropOfBox` shows that every crop of a found box is inside.
- PNG decoding and the `save_with_format` debug images (lines 155, 159, 204,
  229) are not modelled, because they are file I/O.
- The HTTP fetch and submit, the JSON structs, `dotenv` and the environment
  variables (lines 30-38, 209-245) are not modelled, because they are network
  and environment plumbing.
- The `"dummy"` payload (line 206) is not modelled: the source has no
  decoding logic.
- Pixel coordinates are unbounded naturals, not `u32`. All of them are proved
  to be below the image size, so no `u32` overflow can occur.

## Findings

| source | as written | input that shows it | evidently intended | confidence | as-written member | corrected member |
|---|---|---|---|---|---|---|
| src/main.rs:138 | The search for the topmost dark pixel of the left column is a shrinkwrap whose top pass scans columns `0..=x1` of each row. So it stops at the first row with a dark pixel anywhere left of or at column `x1`. | A 2 x 2 image with dark pixels (0, 0) and (1, 1) only, searched from `(x1, y1) = (1, 0)`: it stops at row 0, but column 1's first dark pixel is in row 1. | The first row from `y1` whose pixel in column `x1` is darker than 16, as the comment at line 136 says. | not executed. The difference on this input is proved. Whether the translated images of `decode_qr` reach it depends on what `geom::translate` fills the uncovered area with. | `Placement.LeftColumnCornerAsWritten`, `Placement.LeftColumnCornerDiffers`, `Placement.SkewLegs`, `Placement.SkewLegsDiffer` | `Placement.LeftColumnCorner`, `Placement.IntendedSkewLegs` |
