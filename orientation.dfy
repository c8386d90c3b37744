/** Orientation detection on the cropped symbol (src/main.rs:40-44, 161-202): the
    crop is taken to be a version 1 symbol of 21 x 21 modules, one pixel is
    sampled at the centre of each module of module rows 6 and 14 and module
    columns 6 and 14, and the four resulting strips are matched against
    `ID_PATTERN` to decide which quarter turn puts the matching strips on the
    top and the left. */
module Orientation {
  import opened Raster

  /** Modules along each side of a version 1 symbol. */
  const MODULES: nat := 21

  /** A sampled module centre is dark when its intensity is below this value. */
  const DARK_THRESHOLD: int := 127

  /** `ID_PATTERN`: a solid run of seven, the alternating run, a solid run of seven. */
  const ID_PATTERN: seq<bool> := [
    true, true, true, true, true, true, true,
    false, true, false, true, false, true, false,
    true, true, true, true, true, true, true
  ]

  /** `(width as f32 / 21.0).round() as u32`, as integer arithmetic: the pitch is
      the whole number of pixels per module nearest to width / 21. For a natural
      width the quotient is never exactly halfway between two integers. */
  function Pitch(width: nat): (p: nat)
    ensures 21 * p - 10 <= width <= 21 * p + 10
  {
    (width + 10) / 21
  }

  /** The pixel coordinate sampled for module i: `i * pitch + pitch / 2`. */
  function ModuleCentre(i: nat, p: nat): nat {
    i * p + p / 2
  }

  lemma CentreBelowLast(i: nat, p: nat)
    requires i < MODULES
    ensures ModuleCentre(i, p) <= ModuleCentre(MODULES - 1, p)
  {
  }

  /** Every sample of all four strips lies inside the image, so no `get_pixel`
      call panics. The largest coordinate sampled is that of module 20 on both
      axes. */
  predicate SamplesInBounds(img: GrayImage, p: nat) {
    ModuleCentre(MODULES - 1, p) < img.width && ModuleCentre(MODULES - 1, p) < img.height
  }

  /** The module in column `col`, row `row` samples dark. */
  predicate ModuleDark(img: GrayImage, p: nat, col: nat, row: nat)
    requires img.Valid() && SamplesInBounds(img, p) && col < MODULES && row < MODULES
  {
    CentreBelowLast(col, p);
    CentreBelowLast(row, p);
    img.Pixel(ModuleCentre(col, p), ModuleCentre(row, p)) < DARK_THRESHOLD
  }

  /** The four identifier strips `id_upper`, `id_lower`, `id_left`, `id_right`. */
  datatype Strips = Strips(upper: seq<bool>, lower: seq<bool>, left: seq<bool>, right: seq<bool>)

  /** Each strip holds 21 entries; entry i of `upper`/`lower` is module i of
      module row 6/14, entry i of `left`/`right` is module i of module column 6/14. */
  predicate SampledFrom(s: Strips, img: GrayImage, p: nat)
    requires img.Valid() && SamplesInBounds(img, p)
  {
    && |s.upper| == MODULES && |s.lower| == MODULES && |s.left| == MODULES && |s.right| == MODULES
    && (forall i :: 0 <= i < MODULES ==> s.upper[i] == ModuleDark(img, p, i, 6))
    && (forall i :: 0 <= i < MODULES ==> s.lower[i] == ModuleDark(img, p, i, 14))
    && (forall i :: 0 <= i < MODULES ==> s.left[i] == ModuleDark(img, p, 6, i))
    && (forall i :: 0 <= i < MODULES ==> s.right[i] == ModuleDark(img, p, 14, i))
  }

  /** The two sampling loops: `id_upper` and `id_lower` are filled along x,
      `id_left` and `id_right` along y, in arrays that start all false. */
  method SampleStrips(img: GrayImage, p: nat) returns (s: Strips)
    requires img.Valid() && SamplesInBounds(img, p)
    ensures SampledFrom(s, img, p)
  {
    var idUpper := new bool[MODULES](_ => false);
    var idLeft := new bool[MODULES](_ => false);
    var idRight := new bool[MODULES](_ => false);
    var idLower := new bool[MODULES](_ => false);
    CentreBelowLast(6, p);
    CentreBelowLast(14, p);

    for x := 0 to MODULES
      invariant forall i :: 0 <= i < x ==> idUpper[i] == ModuleDark(img, p, i, 6)
      invariant forall i :: 0 <= i < x ==> idLower[i] == ModuleDark(img, p, i, 14)
    {
      CentreBelowLast(x, p);
      idUpper[x] := img.Pixel(x * p + p / 2, 6 * p + p / 2) < DARK_THRESHOLD;
      idLower[x] := img.Pixel(x * p + p / 2, 14 * p + p / 2) < DARK_THRESHOLD;
    }

    for y := 0 to MODULES
      modifies idLeft, idRight
      invariant forall i :: 0 <= i < y ==> idLeft[i] == ModuleDark(img, p, 6, i)
      invariant forall i :: 0 <= i < y ==> idRight[i] == ModuleDark(img, p, 14, i)
    {
      CentreBelowLast(y, p);
      idLeft[y] := img.Pixel(6 * p + p / 2, y * p + p / 2) < DARK_THRESHOLD;
      idRight[y] := img.Pixel(14 * p + p / 2, y * p + p / 2) < DARK_THRESHOLD;
    }

    s := Strips(idUpper[..], idLower[..], idLeft[..], idRight[..]);
  }

  /** The four outcomes of the decision: `rotate90`, `rotate180`, `rotate270`
      (clockwise quarter turns, as `image::imageops` names them) or the crop
      left as it is. */
  datatype Rotation = NoRotation | Rotate90 | Rotate180 | Rotate270

  /** The decision at lines 194-202, checked in priority order: lower and left
      match, else right and lower, else upper and right, else no rotation. */
  function ChooseRotation(s: Strips): (r: Rotation)
    ensures r == Rotate90 <==> s.lower == ID_PATTERN && s.left == ID_PATTERN
    ensures r == Rotate180 <==>
              !(s.lower == ID_PATTERN && s.left == ID_PATTERN) && s.right == ID_PATTERN && s.lower == ID_PATTERN
    ensures r == NoRotation <==>
              && !(s.lower == ID_PATTERN && s.left == ID_PATTERN)
              && !(s.right == ID_PATTERN && s.lower == ID_PATTERN)
              && !(s.upper == ID_PATTERN && s.right == ID_PATTERN)
  {
    if s.lower == ID_PATTERN && s.left == ID_PATTERN then Rotate90
    else if s.right == ID_PATTERN && s.lower == ID_PATTERN then Rotate180
    else if s.upper == ID_PATTERN && s.right == ID_PATTERN then Rotate270
    else NoRotation
  }

  // ---------------------------------------------------------------------------
  // The logical 21 x 21 module grid, row-major, true = dark, and the quarter
  // turns of `image::imageops` applied to it.

  type Grid = seq<seq<bool>>

  predicate IsGrid(g: Grid) {
    |g| == MODULES && forall r :: 0 <= r < MODULES ==> |g[r]| == MODULES
  }

  function Reverse(s: seq<bool>): (r: seq<bool>)
    ensures |r| == |s| && forall i :: 0 <= i < |s| ==> r[i] == s[|s| - 1 - i]
  {
    seq(|s|, i requires 0 <= i < |s| => s[|s| - 1 - i])
  }

  /** The identifier pattern reads the same in both directions, so a strip that a
      half turn reverses still matches it. */
  lemma IdPatternPalindrome()
    ensures Reverse(ID_PATTERN) == ID_PATTERN
  {
  }

  /** `rotate90`: a clockwise quarter turn, the module at (c, r) moves to (20 - r, c). */
  function RotateCw(g: Grid): (h: Grid)
    requires IsGrid(g)
    ensures IsGrid(h)
    ensures forall r, c :: 0 <= r < MODULES && 0 <= c < MODULES ==> h[r][c] == g[MODULES - 1 - c][r]
  {
    seq(MODULES, r requires 0 <= r < MODULES =>
      seq(MODULES, c requires 0 <= c < MODULES => g[MODULES - 1 - c][r]))
  }

  /** `rotate180`: the module at (c, r) moves to (20 - c, 20 - r). */
  function RotateHalf(g: Grid): (h: Grid)
    requires IsGrid(g)
    ensures IsGrid(h)
    ensures forall r, c :: 0 <= r < MODULES && 0 <= c < MODULES ==> h[r][c] == g[MODULES - 1 - r][MODULES - 1 - c]
  {
    seq(MODULES, r requires 0 <= r < MODULES =>
      seq(MODULES, c requires 0 <= c < MODULES => g[MODULES - 1 - r][MODULES - 1 - c]))
  }

  /** `rotate270`: a counter-clockwise quarter turn, the module at (c, r) moves to (r, 20 - c). */
  function RotateCcw(g: Grid): (h: Grid)
    requires IsGrid(g)
    ensures IsGrid(h)
    ensures forall r, c :: 0 <= r < MODULES && 0 <= c < MODULES ==> h[r][c] == g[c][MODULES - 1 - r]
  {
    seq(MODULES, r requires 0 <= r < MODULES =>
      seq(MODULES, c requires 0 <= c < MODULES => g[c][MODULES - 1 - r]))
  }

  function Apply(o: Rotation, g: Grid): (h: Grid)
    requires IsGrid(g)
    ensures IsGrid(h)
  {
    match o
    case NoRotation => g
    case Rotate90 => RotateCw(g)
    case Rotate180 => RotateHalf(g)
    case Rotate270 => RotateCcw(g)
  }

  /** The strips of a module grid: rows 6 and 14, columns 6 and 14. */
  function StripsOf(g: Grid): (s: Strips)
    requires IsGrid(g)
    ensures |s.upper| == MODULES && |s.lower| == MODULES && |s.left| == MODULES && |s.right| == MODULES
  {
    Strips(g[6], g[14],
           seq(MODULES, r requires 0 <= r < MODULES => g[r][6]),
           seq(MODULES, r requires 0 <= r < MODULES => g[r][14]))
  }

  /** The grid of module samples: module (c, r) is `ModuleDark(img, p, c, r)`. */
  function SampledGrid(img: GrayImage, p: nat): (g: Grid)
    requires img.Valid() && SamplesInBounds(img, p)
    ensures IsGrid(g)
    ensures forall r, c :: 0 <= r < MODULES && 0 <= c < MODULES ==> g[r][c] == ModuleDark(img, p, c, r)
  {
    seq(MODULES, r requires 0 <= r < MODULES =>
      seq(MODULES, c requires 0 <= c < MODULES => ModuleDark(img, p, c, r)))
  }

  /** The sampled strips are exactly the strips of the sampled module grid, and
      they are determined by the image and the pitch. */
  lemma SampledStripsOfGrid(s: Strips, img: GrayImage, p: nat)
    requires img.Valid() && SamplesInBounds(img, p) && SampledFrom(s, img, p)
    ensures s == StripsOf(SampledGrid(img, p))
  {
  }

  /** How each quarter turn moves the four strips; reversed where the turn runs
      a strip backwards. */
  lemma StripsOfRotated(g: Grid)
    requires IsGrid(g)
    ensures var s, t := StripsOf(g), StripsOf(RotateCw(g));
            t == Strips(Reverse(s.left), Reverse(s.right), s.lower, s.upper)
    ensures var s, t := StripsOf(g), StripsOf(RotateHalf(g));
            t == Strips(Reverse(s.lower), Reverse(s.upper), Reverse(s.right), Reverse(s.left))
    ensures var s, t := StripsOf(g), StripsOf(RotateCcw(g));
            t == Strips(s.right, s.left, Reverse(s.upper), Reverse(s.lower))
  {
  }

  lemma ReverseMatches(s: seq<bool>)
    ensures Reverse(s) == ID_PATTERN <==> s == ID_PATTERN
  {
    IdPatternPalindrome();
    if Reverse(s) == ID_PATTERN {
      assert s == Reverse(Reverse(s));
    }
  }

  /** The intent stated at lines 192-193: whenever the decision rotates, the
      chosen quarter turn brings two matching strips to module row 6 and
      module column 6, the top and the left. */
  lemma {:induction false} RotationMovesPatternTopLeft(g: Grid)
    requires IsGrid(g)
    requires ChooseRotation(StripsOf(g)) != NoRotation
    ensures var t := StripsOf(Apply(ChooseRotation(StripsOf(g)), g));
            t.upper == ID_PATTERN && t.left == ID_PATTERN
  {
    var s := StripsOf(g);
    StripsOfRotated(g);
    ReverseMatches(s.left);
    ReverseMatches(s.upper);
    ReverseMatches(s.right);
  }

  lemma QuarterTurnsCompose(g: Grid)
    requires IsGrid(g)
    ensures RotateCcw(RotateCw(g)) == g
    ensures RotateHalf(RotateHalf(g)) == g
    ensures RotateCw(RotateCcw(g)) == g
  {
    forall r | 0 <= r < MODULES
      ensures RotateCcw(RotateCw(g))[r] == g[r] && RotateHalf(RotateHalf(g))[r] == g[r]
              && RotateCw(RotateCcw(g))[r] == g[r]
    {
    }
  }

  /** An upright symbol has matching strips in module row 6 and column 6 only. */
  predicate Upright(g: Grid)
    requires IsGrid(g)
  {
    var s := StripsOf(g);
    s.upper == ID_PATTERN && s.left == ID_PATTERN && s.lower != ID_PATTERN && s.right != ID_PATTERN
  }

  /** An upright symbol is left as it is, and the same symbol turned by any
      quarter turn is turned back to exactly the upright grid. */
  lemma {:induction false} RestoresUpright(g: Grid, q: Rotation)
    requires IsGrid(g) && Upright(g)
    ensures var h := Apply(q, g);
            Apply(ChooseRotation(StripsOf(h)), h) == g
  {
    var s := StripsOf(g);
    StripsOfRotated(g);
    QuarterTurnsCompose(g);
    ReverseMatches(s.left);
    ReverseMatches(s.upper);
    ReverseMatches(s.right);
    ReverseMatches(s.lower);
    match q
    case NoRotation =>
    case Rotate90 =>
      assert ChooseRotation(StripsOf(RotateCw(g))) == Rotate270;
    case Rotate180 =>
      assert ChooseRotation(StripsOf(RotateHalf(g))) == Rotate180;
    case Rotate270 =>
      assert ChooseRotation(StripsOf(RotateCcw(g))) == Rotate90;
  }

  /** A crop whose width is a whole number k of modules has pitch k, and a
      k-module square crop can be sampled without leaving the image. */
  lemma {:induction false} WholeModulePitch(img: GrayImage, k: nat)
    requires k >= 1 && img.width == MODULES * k && img.height == MODULES * k
    ensures Pitch(img.width) == k && SamplesInBounds(img, k)
  {
  }

  /** A square crop is too small to sample exactly when module 20's centre
      `20p + p / 2` reaches its width; from 431 pixels on that never happens,
      and below it only crops within a few pixels above `21p - 10` fail (200
      pixels with pitch 10, for one). */
  lemma SquareCropSampling(img: GrayImage)
    requires img.width == img.height
    ensures var p := Pitch(img.width);
            !SamplesInBounds(img, p) <==> img.width <= 20 * p + p / 2
    ensures img.width >= 431 ==> SamplesInBounds(img, Pitch(img.width))
    ensures img.width == 200 ==> Pitch(img.width) == 10 && !SamplesInBounds(img, 10)
  {
  }

  /** The crop of line 158 leaves out the box's last column and row, so a tight
      symbol of k pixels per module gives a square crop one pixel short of 21k.
      Its pitch is still k, but module 20's centre is inside only for k >= 3:
      a symbol with 1- or 2-pixel modules (a 21- or 42-pixel box) panics. */
  lemma TightSymbolCrop(img: GrayImage, k: nat)
    requires k >= 1 && img.width == MODULES * k - 1 && img.height == img.width
    ensures Pitch(img.width) == k
    ensures SamplesInBounds(img, k) <==> k >= 3
  {
  }

  /** A crop 11 to 20 pixels wide rounds to a pitch of 1 but is too narrow for
      module 20's centre, so sampling it panics. */
  lemma NarrowCropOutOfBounds(img: GrayImage)
    requires 11 <= img.width <= 20
    ensures Pitch(img.width) == 1 && !SamplesInBounds(img, Pitch(img.width))
  {
  }
}
