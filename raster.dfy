/** Grayscale rasters as the geometry code sees them: an `image::GrayImage`, one
    8-bit luma sample per pixel, addressed by (column, row) as `get_pixel(x, y)` is. */
module Raster {

  /** One 8-bit luma sample: 0 is fully dark, 255 fully light. */
  type Byte = x: int | 0 <= x < 256

  /** A row-major grid of samples; `rows[y][x]` is the pixel at column x, row y. */
  datatype GrayImage = GrayImage(width: nat, height: nat, rows: seq<seq<Byte>>)
  {
    predicate Valid() {
      |rows| == height && forall y :: 0 <= y < height ==> |rows[y]| == width
    }

    /** `get_pixel(x, y)`, which panics outside the image: callers must stay inside. */
    function Pixel(x: nat, y: nat): Byte
      requires Valid() && x < width && y < height
    {
      rows[y][x]
    }
  }
}
