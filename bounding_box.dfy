/** The bounding-box finder `shrinkwrap_bounding_box` (src/main.rs:46-114): a greedy
    shrink of an inclusive rectangle, one edge at a time, in the order top, left,
    bottom, right, each pass scanning the rectangle as the earlier passes left it. */
module BoundingBox {
  import opened Raster

  /** A pixel stops a pass when its intensity is below this value. */
  const EDGE_THRESHOLD: int := 16

  predicate IsEdgePixel(img: GrayImage, x: nat, y: nat)
    requires img.Valid() && x < img.width && y < img.height
  {
    img.Pixel(x, y) < EDGE_THRESHOLD
  }

  /** An inclusive box of pixel coordinates, the `(x1, y1, x2, y2)` tuple of the source. */
  datatype Box = Box(x1: nat, y1: nat, x2: nat, y2: nat)
  {
    predicate Ordered() {
      x1 <= x2 && y1 <= y2
    }

    predicate Inside(img: GrayImage) {
      x2 < img.width && y2 < img.height
    }

    /** `inner` lies within this box. */
    predicate Encloses(inner: Box) {
      x1 <= inner.x1 && inner.x2 <= x2 && y1 <= inner.y1 && inner.y2 <= y2
    }
  }

  /** Row y holds an edge pixel somewhere in columns lo..=hi. */
  predicate RowHasEdge(img: GrayImage, y: nat, lo: nat, hi: nat)
    requires img.Valid() && hi < img.width && y < img.height
  {
    exists x: nat :: lo <= x <= hi && IsEdgePixel(img, x, y)
  }

  /** Column x holds an edge pixel somewhere in rows lo..=hi. */
  predicate ColumnHasEdge(img: GrayImage, x: nat, lo: nat, hi: nat)
    requires img.Valid() && x < img.width && hi < img.height
  {
    exists y: nat :: lo <= y <= hi && IsEdgePixel(img, x, y)
  }

  /** The top pass: y1 moves down while row y1 has no edge pixel in columns
      0..=x2 (the whole width up to x2, not only x1..=x2), stopping at y2. */
  function TopEdge(img: GrayImage, y1: nat, y2: nat, x2: nat): (r: nat)
    requires img.Valid() && x2 < img.width && y1 <= y2 < img.height
    ensures y1 <= r <= y2
    ensures forall y: nat :: y1 <= y < r ==> !RowHasEdge(img, y, 0, x2)
    ensures r == y2 || RowHasEdge(img, r, 0, x2)
    decreases y2 - y1
  {
    if y1 < y2 && !RowHasEdge(img, y1, 0, x2) then TopEdge(img, y1 + 1, y2, x2) else y1
  }

  /** The left pass: x1 moves right while column x1 has no edge pixel in rows
      y1..=y2, stopping at x2. */
  function LeftEdge(img: GrayImage, x1: nat, x2: nat, y1: nat, y2: nat): (r: nat)
    requires img.Valid() && x1 <= x2 < img.width && y2 < img.height
    ensures x1 <= r <= x2
    ensures forall x: nat :: x1 <= x < r ==> !ColumnHasEdge(img, x, y1, y2)
    ensures r == x2 || ColumnHasEdge(img, r, y1, y2)
    decreases x2 - x1
  {
    if x1 < x2 && !ColumnHasEdge(img, x1, y1, y2) then LeftEdge(img, x1 + 1, x2, y1, y2) else x1
  }

  /** The bottom pass: y2 moves up while row y2 has no edge pixel in columns
      x1..=x2, stopping at y1. */
  function BottomEdge(img: GrayImage, y2: nat, y1: nat, x1: nat, x2: nat): (r: nat)
    requires img.Valid() && x2 < img.width && y1 <= y2 < img.height
    ensures y1 <= r <= y2
    ensures forall y: nat :: r < y <= y2 ==> !RowHasEdge(img, y, x1, x2)
    ensures r == y1 || RowHasEdge(img, r, x1, x2)
    decreases y2 - y1
  {
    if y2 > y1 && !RowHasEdge(img, y2, x1, x2) then BottomEdge(img, y2 - 1, y1, x1, x2) else y2
  }

  /** The right pass: x2 moves left while column x2 has no edge pixel in rows
      y1..=y2, stopping at x1. */
  function RightEdge(img: GrayImage, x2: nat, x1: nat, y1: nat, y2: nat): (r: nat)
    requires img.Valid() && x1 <= x2 < img.width && y2 < img.height
    ensures x1 <= r <= x2
    ensures forall x: nat :: r < x <= x2 ==> !ColumnHasEdge(img, x, y1, y2)
    ensures r == x1 || ColumnHasEdge(img, r, y1, y2)
    decreases x2 - x1
  {
    if x2 > x1 && !ColumnHasEdge(img, x2, y1, y2) then RightEdge(img, x2 - 1, x1, y1, y2) else x2
  }

  /** The four passes in the source's order, each using the coordinates the
      previous ones produced. The result is ordered and nested in the start box. */
  function Shrinkwrap(img: GrayImage, b: Box): (r: Box)
    requires img.Valid() && b.Ordered() && b.Inside(img)
    ensures r.Ordered() && b.Encloses(r)
  {
    var y1 := TopEdge(img, b.y1, b.y2, b.x2);
    var x1 := LeftEdge(img, b.x1, b.x2, y1, b.y2);
    var y2 := BottomEdge(img, b.y2, y1, x1, b.x2);
    var x2 := RightEdge(img, b.x2, x1, y1, y2);
    Box(x1, y1, x2, y2)
  }

  /** `shrinkwrap_bounding_box`: four `while` loops, each with a `found_edge`
      flag set by an inner `for` that breaks at the first edge pixel. */
  method ShrinkwrapBoundingBox(img: GrayImage, x1: nat, y1: nat, x2: nat, y2: nat) returns (r: Box)
    requires img.Valid() && x1 <= x2 < img.width && y1 <= y2 < img.height
    ensures r == Shrinkwrap(img, Box(x1, y1, x2, y2))
  {
    var left, top, right, bottom := x1, y1, x2, y2;

    while top < bottom
      invariant y1 <= top <= bottom
      invariant TopEdge(img, top, bottom, right) == TopEdge(img, y1, y2, x2)
    {
      var foundEdge := false;
      for x := 0 to right + 1
        invariant !foundEdge
        invariant forall x': nat :: x' < x ==> !IsEdgePixel(img, x', top)
      {
        if img.Pixel(x, top) < EDGE_THRESHOLD {
          assert IsEdgePixel(img, x, top);
          foundEdge := true;
          break;
        }
      }
      if foundEdge {
        break;
      } else {
        top := top + 1;
      }
    }
    ghost var y1' := top;
    assert y1' == TopEdge(img, y1, y2, x2);

    while left < right
      invariant x1 <= left <= right
      invariant LeftEdge(img, left, right, top, bottom) == LeftEdge(img, x1, x2, y1', y2)
    {
      var foundEdge := false;
      for y := top to bottom + 1
        invariant !foundEdge
        invariant forall y': nat :: top <= y' < y ==> !IsEdgePixel(img, left, y')
      {
        if img.Pixel(left, y) < EDGE_THRESHOLD {
          assert IsEdgePixel(img, left, y);
          foundEdge := true;
          break;
        }
      }
      if foundEdge {
        break;
      } else {
        left := left + 1;
      }
    }
    ghost var x1' := left;
    assert x1' == LeftEdge(img, x1, x2, y1', y2);

    while bottom > top
      invariant top <= bottom <= y2
      invariant BottomEdge(img, bottom, top, left, right) == BottomEdge(img, y2, y1', x1', x2)
    {
      var foundEdge := false;
      for x := left to right + 1
        invariant !foundEdge
        invariant forall x': nat :: left <= x' < x ==> !IsEdgePixel(img, x', bottom)
      {
        if img.Pixel(x, bottom) < EDGE_THRESHOLD {
          assert IsEdgePixel(img, x, bottom);
          foundEdge := true;
          break;
        }
      }
      if foundEdge {
        break;
      } else {
        bottom := bottom - 1;
      }
    }
    ghost var y2' := bottom;
    assert y2' == BottomEdge(img, y2, y1', x1', x2);

    while right > left
      invariant left <= right <= x2
      invariant RightEdge(img, right, left, top, bottom) == RightEdge(img, x2, x1', y1', y2')
    {
      var foundEdge := false;
      for y := top to bottom + 1
        invariant !foundEdge
        invariant forall y': nat :: top <= y' < y ==> !IsEdgePixel(img, right, y')
      {
        if img.Pixel(right, y) < EDGE_THRESHOLD {
          assert IsEdgePixel(img, right, y);
          foundEdge := true;
          break;
        }
      }
      if foundEdge {
        break;
      } else {
        right := right - 1;
      }
    }

    r := Box(left, top, right, bottom);
  }

  /** An image with no edge pixel anywhere the passes look (columns 0..=x2,
      rows y1..=y2) collapses the box onto its bottom-right corner. */
  lemma AllLightCollapses(img: GrayImage, b: Box)
    requires img.Valid() && b.Ordered() && b.Inside(img)
    requires forall x: nat, y: nat :: x <= b.x2 && b.y1 <= y <= b.y2 ==> !IsEdgePixel(img, x, y)
    ensures Shrinkwrap(img, b) == Box(b.x2, b.y2, b.x2, b.y2)
  {
  }

  /** The box is a fixed point when each of its edges already stops its pass:
      every edge holds an edge pixel in the range its pass scans, or has met
      the opposite edge. */
  lemma EdgesHoldIsFixpoint(img: GrayImage, b: Box)
    requires img.Valid() && b.Ordered() && b.Inside(img)
    requires b.y1 == b.y2 || RowHasEdge(img, b.y1, 0, b.x2)
    requires b.x1 == b.x2 || ColumnHasEdge(img, b.x1, b.y1, b.y2)
    requires b.y2 == b.y1 || RowHasEdge(img, b.y2, b.x1, b.x2)
    requires b.x2 == b.x1 || ColumnHasEdge(img, b.x2, b.y1, b.y2)
    ensures Shrinkwrap(img, b) == b
  {
  }

  /** An already tight image (edge pixels on its top and bottom row and on its
      left and right column) is its own bounding box. */
  lemma TightImageIsFixpoint(img: GrayImage)
    requires img.Valid() && img.width > 0 && img.height > 0
    requires RowHasEdge(img, 0, 0, img.width - 1)
    requires ColumnHasEdge(img, 0, 0, img.height - 1)
    requires RowHasEdge(img, img.height - 1, 0, img.width - 1)
    requires ColumnHasEdge(img, img.width - 1, 0, img.height - 1)
    ensures Shrinkwrap(img, Box(0, 0, img.width - 1, img.height - 1)) == Box(0, 0, img.width - 1, img.height - 1)
  {
    EdgesHoldIsFixpoint(img, Box(0, 0, img.width - 1, img.height - 1));
  }

  /** Shrinking an already shrunk box changes nothing. */
  lemma Idempotent(img: GrayImage, b: Box)
    requires img.Valid() && b.Ordered() && b.Inside(img)
    ensures Shrinkwrap(img, Shrinkwrap(img, b)) == Shrinkwrap(img, b)
  {
    var r := Shrinkwrap(img, b);
    var y1 := TopEdge(img, b.y1, b.y2, b.x2);
    var x1 := LeftEdge(img, b.x1, b.x2, y1, b.y2);
    var y2 := BottomEdge(img, b.y2, y1, x1, b.x2);
    var x2 := RightEdge(img, b.x2, x1, y1, y2);
    assert r == Box(x1, y1, x2, y2);
    // Top: an edge pixel right of x2 in row y1 would have stopped the right pass.
    if y1 != y2 {
      var c: nat :| c <= b.x2 && IsEdgePixel(img, c, y1);
      assert ColumnHasEdge(img, c, y1, y2);
      assert RowHasEdge(img, y1, 0, x2);
    }
    // Left: an edge pixel below y2 in column x1 would have stopped the bottom pass.
    if x1 != x2 {
      var c: nat :| y1 <= c <= b.y2 && IsEdgePixel(img, x1, c);
      assert RowHasEdge(img, c, x1, b.x2);
      assert ColumnHasEdge(img, x1, y1, y2);
    }
    // Bottom: an edge pixel right of x2 in row y2 would have stopped the right pass.
    if y2 != y1 {
      var c: nat :| x1 <= c <= b.x2 && IsEdgePixel(img, c, y2);
      assert ColumnHasEdge(img, c, y1, y2);
      assert RowHasEdge(img, y2, x1, x2);
    }
    EdgesHoldIsFixpoint(img, r);
  }

  /** A single solid block of edge pixels, columns a..=c and rows top..=bottom,
      inside the search box and alone in the region the passes scan, is found
      exactly. */
  lemma {:induction false} SolidRectangleFound(img: GrayImage, b: Box, a: nat, top: nat, c: nat, bottom: nat)
    requires img.Valid() && b.Ordered() && b.Inside(img)
    requires b.x1 <= a <= c <= b.x2 && b.y1 <= top <= bottom <= b.y2
    requires forall x: nat, y: nat :: x <= b.x2 && b.y1 <= y <= b.y2 ==>
               (IsEdgePixel(img, x, y) <==> a <= x <= c && top <= y <= bottom)
    ensures Shrinkwrap(img, b) == Box(a, top, c, bottom)
  {
    // Rows above the block and columns left of it hold no edge pixel; its
    // corners do, so each pass stops exactly on the block's edge.
    assert IsEdgePixel(img, a, top) && IsEdgePixel(img, c, bottom);
    assert RowHasEdge(img, top, 0, b.x2);
    assert forall y: nat :: b.y1 <= y < top ==> !RowHasEdge(img, y, 0, b.x2);
    var y1 := TopEdge(img, b.y1, b.y2, b.x2);
    assert y1 == top;
    assert ColumnHasEdge(img, a, top, b.y2);
    assert forall x: nat :: b.x1 <= x < a ==> !ColumnHasEdge(img, x, top, b.y2);
    var x1 := LeftEdge(img, b.x1, b.x2, top, b.y2);
    assert x1 == a;
    assert RowHasEdge(img, bottom, a, b.x2);
    assert forall y: nat :: bottom < y <= b.y2 ==> !RowHasEdge(img, y, a, b.x2);
    var y2 := BottomEdge(img, b.y2, top, a, b.x2);
    assert y2 == bottom;
    assert ColumnHasEdge(img, c, top, bottom);
    assert forall x: nat :: c < x <= b.x2 ==> !ColumnHasEdge(img, x, top, bottom);
  }
}
