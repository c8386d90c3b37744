/** The integer geometry `decode_qr` does around its image transforms
    (src/main.rs:120-158): the translation that moves the located box to the
    bottom-right corner, the corner search that measures the skew triangle, and
    the rectangle handed to `crop_imm`. All arithmetic in the source is on `u32`;
    every subtraction here has a `nat` result, so each is proved not to wrap. */
module Placement {
  import opened Raster
  import opened BoundingBox

  /** The box covering a whole image, the start of both full-image searches. */
  function FullBox(img: GrayImage): (b: Box)
    requires img.width >= 1 && img.height >= 1
    ensures b.Ordered() && b.Inside(img)
    ensures b.x1 == 0 && b.y1 == 0 && b.x2 + 1 == img.width && b.y2 + 1 == img.height
  {
    Box(0, 0, img.width - 1, img.height - 1)
  }

  /** The translation offsets: how far the box must move right and down for its
      bottom-right corner to land on the image's bottom-right pixel. The moved
      top-left corner stays inside the image, so the `u32` additions cannot
      leave it. */
  function TranslationOffsets(w: nat, h: nat, b: Box): (offset: (nat, nat))
    requires b.Ordered() && b.x2 < w && b.y2 < h
    ensures b.x2 + offset.0 == w - 1 && b.y2 + offset.1 == h - 1
    ensures b.x1 + offset.0 <= w - 1 && b.y1 + offset.1 <= h - 1
    ensures (b.x2 + offset.0) - (b.x1 + offset.0) == b.x2 - b.x1
  {
    ((w - 1) - b.x2, (h - 1) - b.y2)
  }

  /** The column search along the top row: a shrinkwrap confined to row y1 from
      column x1 to the right border, of which the source keeps the left edge. It
      is the first column from x1 holding an edge pixel in row y1, or the last
      column when row y1 has none from x1 on. */
  function TopRowCorner(t: GrayImage, x1: nat, y1: nat): (x2: nat)
    requires t.Valid() && x1 < t.width && y1 < t.height
    ensures x1 <= x2 < t.width
    ensures forall x: nat :: x1 <= x < x2 ==> !IsEdgePixel(t, x, y1)
    ensures x2 == t.width - 1 || IsEdgePixel(t, x2, y1)
  {
    var b := Shrinkwrap(t, Box(x1, y1, t.width - 1, y1));
    assert b.x1 == LeftEdge(t, x1, t.width - 1, y1, y1);
    assert forall x: nat :: x < t.width ==> (ColumnHasEdge(t, x, y1, y1) <==> IsEdgePixel(t, x, y1));
    b.x1
  }

  /** The row search down the left column as the source writes it: a shrinkwrap
      confined to column x1 from row y1 to the bottom border, of which the source
      keeps the top edge. The top pass scans columns 0..=x1 of each row, so the
      result is the first row from y1 holding an edge pixel anywhere left of or
      at column x1, not the first edge pixel of column x1 itself. */
  function LeftColumnCornerAsWritten(t: GrayImage, x1: nat, y1: nat): (y2: nat)
    requires t.Valid() && x1 < t.width && y1 < t.height
    ensures y1 <= y2 < t.height
    ensures forall y: nat :: y1 <= y < y2 ==> !RowHasEdge(t, y, 0, x1)
    ensures y2 == t.height - 1 || RowHasEdge(t, y2, 0, x1)
  {
    Shrinkwrap(t, Box(x1, y1, x1, t.height - 1)).y1
  }

  /** The row search down the left column as its comment describes it: the
      first row from y1 whose pixel in column x holds an edge pixel, or the last
      row when there is none. */
  function LeftColumnCorner(t: GrayImage, x: nat, y1: nat): (y2: nat)
    requires t.Valid() && x < t.width && y1 < t.height
    ensures y1 <= y2 < t.height
    ensures forall y: nat :: y1 <= y < y2 ==> !IsEdgePixel(t, x, y)
    ensures y2 == t.height - 1 || IsEdgePixel(t, x, y2)
    decreases t.height - y1
  {
    if y1 < t.height - 1 && !IsEdgePixel(t, x, y1) then LeftColumnCorner(t, x, y1 + 1) else y1
  }

  /** On a 2x2 image whose only edge pixels are (0, 0) and (1, 1), the search
      down column 1 from row 0 stops at row 0 as written, because of the pixel
      at (0, 0) left of the column, while column 1's topmost edge pixel is in
      row 1. */
  lemma LeftColumnCornerDiffers()
    ensures var t := GrayImage(2, 2, [[0, 255], [255, 0]]);
            t.Valid() &&
            LeftColumnCornerAsWritten(t, 1, 0) == 0 && LeftColumnCorner(t, 1, 0) == 1
  {
    var t := GrayImage(2, 2, [[0, 255], [255, 0]]);
    assert IsEdgePixel(t, 0, 0) && !IsEdgePixel(t, 1, 0);
    assert RowHasEdge(t, 0, 0, 1);
  }

  /** The two legs of the skew triangle, `tri_w` and `tri_h` (lines 141-142),
      measured from the translated top-left corner (x1, y1) with the searches of
      lines 137-138 as written. Both subtractions are on `u32` in the source;
      each leg is a `nat`, so neither wraps. `tri_w` is zero exactly when the
      corner pixel is dark or on the right border; `tri_h` is zero exactly when
      row y1 has a dark pixel anywhere in columns 0..=x1 or y1 is the bottom row. */
  function SkewLegs(t: GrayImage, x1: nat, y1: nat): (legs: (nat, nat))
    requires t.Valid() && x1 < t.width && y1 < t.height
    ensures x1 + legs.0 == TopRowCorner(t, x1, y1) && y1 + legs.1 == LeftColumnCornerAsWritten(t, x1, y1)
    ensures x1 + legs.0 < t.width && y1 + legs.1 < t.height
    ensures legs.0 == 0 <==> (x1 == t.width - 1 || IsEdgePixel(t, x1, y1))
    ensures legs.1 == 0 <==> (y1 == t.height - 1 || RowHasEdge(t, y1, 0, x1))
  {
    (TopRowCorner(t, x1, y1) - x1, LeftColumnCornerAsWritten(t, x1, y1) - y1)
  }

  /** The legs as the comment at line 136 describes the searches: `tri_h`
      measured down column x1 itself. Here a leg is zero exactly when the
      corner pixel is dark (or on the border), which makes the angle
      `atan(tri_h / tri_w)` a 0/0 when the corner pixel is dark. */
  function IntendedSkewLegs(t: GrayImage, x1: nat, y1: nat): (legs: (nat, nat))
    requires t.Valid() && x1 < t.width && y1 < t.height
    ensures x1 + legs.0 == TopRowCorner(t, x1, y1) && y1 + legs.1 == LeftColumnCorner(t, x1, y1)
    ensures legs.0 == 0 <==> (x1 == t.width - 1 || IsEdgePixel(t, x1, y1))
    ensures legs.1 == 0 <==> (y1 == t.height - 1 || IsEdgePixel(t, x1, y1))
  {
    (TopRowCorner(t, x1, y1) - x1, LeftColumnCorner(t, x1, y1) - y1)
  }

  /** On the 2x2 image of `LeftColumnCornerDiffers`, from the light corner
      (1, 0), the program's `tri_h` is 0 while the intended one is 1. */
  lemma SkewLegsDiffer()
    ensures var t := GrayImage(2, 2, [[0, 255], [255, 0]]);
            t.Valid() && SkewLegs(t, 1, 0).1 == 0 && IntendedSkewLegs(t, 1, 0).1 == 1
  {
    LeftColumnCornerDiffers();
  }

  /** A pixel rectangle `(x, y, width, height)` as `crop_imm` takes it. */
  datatype Rect = Rect(x: nat, y: nat, width: nat, height: nat)

  /** The crop rectangle `(x1, y1, x2 - x1, y2 - y1)`: it starts at the box's
      top-left corner and stops one short of its right column and bottom row. */
  function CropRect(b: Box): (r: Rect)
    requires b.Ordered()
    ensures r.x == b.x1 && r.y == b.y1
    ensures r.x + r.width == b.x2 && r.y + r.height == b.y2
  {
    Rect(b.x1, b.y1, b.x2 - b.x1, b.y2 - b.y1)
  }

  /** The index mapping of `crop_imm(...).to_image()` for a rectangle inside the
      image: pixel (i, j) of the crop is pixel (x + i, y + j) of the source. */
  function Crop(img: GrayImage, r: Rect): (c: GrayImage)
    requires img.Valid() && r.x + r.width <= img.width && r.y + r.height <= img.height
    ensures c.Valid() && c.width == r.width && c.height == r.height
    ensures forall i: nat, j: nat :: i < c.width && j < c.height ==>
              c.Pixel(i, j) == img.Pixel(r.x + i, r.y + j)
  {
    GrayImage(r.width, r.height,
      seq(r.height, j requires 0 <= j < r.height =>
        seq(r.width, i requires 0 <= i < r.width => img.rows[r.y + j][r.x + i])))
  }

  /** Cropping a box found on an image: the crop lies inside the image, every
      crop pixel comes from the box with its right column and bottom row left
      out, and a box one column wide or one row high gives an empty crop. */
  lemma {:induction false} CropOfBox(img: GrayImage, b: Box)
    requires img.Valid() && b.Ordered() && b.Inside(img)
    ensures var r := CropRect(b);
            r.x + r.width <= img.width && r.y + r.height <= img.height
    ensures var c := Crop(img, CropRect(b));
            && c.width == b.x2 - b.x1 && c.height == b.y2 - b.y1
            && (forall i: nat, j: nat :: i < c.width && j < c.height ==>
                  b.x1 + i < b.x2 && b.y1 + j < b.y2 && c.Pixel(i, j) == img.Pixel(b.x1 + i, b.y1 + j))
            && (b.x1 == b.x2 || b.y1 == b.y2 <==> c.width == 0 || c.height == 0)
  {
  }
}
