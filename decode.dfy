/** The integer side of `decode_qr` (src/main.rs:116-207), with the library's
    image transforms as parameters: `translated` stands for the result of
    `geom::translate` and `corrected` for that of `geom::rotate`, both of which
    keep the input's size. */
module Decode {
  import opened Raster
  import opened BoundingBox
  import opened Placement
  import opened Orientation

  /** What `decode_qr` works out before it rotates: the box on the input, the
      translation offsets, the translated top-left corner and the skew legs. */
  datatype Measurement = Measurement(box: Box, offsetX: nat, offsetY: nat, cornerX: nat, cornerY: nat, legs: (nat, nat))

  /** Lines 120-142. The input must have at least one row and one column, since
      `width() - 1` and `height() - 1` are `u32` subtractions. The translated box
      touches the bottom-right corner and the translated corner and both legs
      stay inside the image. */
  function Measure(input: GrayImage, translated: GrayImage): (m: Measurement)
    requires input.Valid() && input.width >= 1 && input.height >= 1
    requires translated.Valid() && translated.width == input.width && translated.height == input.height
    ensures m.box == Shrinkwrap(input, FullBox(input))
    ensures m.box.x2 + m.offsetX == input.width - 1 && m.box.y2 + m.offsetY == input.height - 1
    ensures m.cornerX == m.box.x1 + m.offsetX && m.cornerY == m.box.y1 + m.offsetY
    ensures m.legs == SkewLegs(translated, m.cornerX, m.cornerY)
    ensures m.cornerX + m.legs.0 < input.width && m.cornerY + m.legs.1 < input.height
  {
    var box := Shrinkwrap(input, FullBox(input));
    var offset := TranslationOffsets(input.width, input.height, box);
    var x1, y1 := box.x1 + offset.0, box.y1 + offset.1;
    Measurement(box, offset.0, offset.1, x1, y1, SkewLegs(translated, x1, y1))
  }

  /** `get_pixel` outside the crop, which panics in the source. */
  datatype DecodeError = PixelOutOfBounds

  datatype Result<T> = Ok(value: T) | Err(error: DecodeError)

  /** Lines 157-202: shrinkwrap the corrected image, crop it, sample the four
      strips at the rounded pitch and choose the rotation. A crop too small for
      module 20's centre, in particular the empty crop of a box one pixel wide
      or high, is the panic path. */
  method OrientSymbol(corrected: GrayImage) returns (r: Result<Rotation>, cropped: GrayImage, strips: Strips)
    requires corrected.Valid() && corrected.width >= 1 && corrected.height >= 1
    ensures var b := Shrinkwrap(corrected, FullBox(corrected));
            cropped == Crop(corrected, CropRect(b))
    ensures r.Err? <==> !SamplesInBounds(cropped, Pitch(cropped.width))
    ensures var b := Shrinkwrap(corrected, FullBox(corrected));
            b.x1 == b.x2 || b.y1 == b.y2 ==> r.Err?
    ensures r.Ok? ==> SampledFrom(strips, cropped, Pitch(cropped.width)) && r.value == ChooseRotation(strips)
  {
    var b := ShrinkwrapBoundingBox(corrected, 0, 0, corrected.width - 1, corrected.height - 1);
    CropOfBox(corrected, b);
    cropped := Crop(corrected, CropRect(b));
    var pixelPitch := Pitch(cropped.width);
    if !SamplesInBounds(cropped, pixelPitch) {
      r, strips := Err(PixelOutOfBounds), Strips([], [], [], []);
      return;
    }
    strips := SampleStrips(cropped, pixelPitch);
    r := Ok(ChooseRotation(strips));
  }
}
