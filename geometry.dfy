/**
 * Bounding rectangles of contours and the pixel windows that the two
 * implementations derive from them before counting mask pixels.
 *
 * Coordinates follow OpenCV: `x` is the column, `y` the row, `w` and `h`
 * the extent in columns and rows. A window is a half-open block of rows
 * [top, bottom) by columns [left, right); it is empty when either range is.
 */
module Geometry {

  /** CvRect / the (x, y, w, h) tuple returned by boundingRect. */
  datatype Rect = Rect(x: int, y: int, w: int, h: int)

  /** Whether the cell in row i, column j lies inside the rectangle. */
  predicate InRect(r: Rect, i: int, j: int)
  {
    r.y <= i < r.y + r.h && r.x <= j < r.x + r.w
  }

  datatype Window = Window(top: int, bottom: int, left: int, right: int)
  {
    predicate IsEmpty()
    {
      bottom <= top || right <= left
    }

    predicate Contains(i: int, j: int)
    {
      top <= i < bottom && left <= j < right
    }

    /** The window never reaches outside a `height` by `width` image. */
    predicate Inside(height: int, width: int)
    {
      0 <= top && bottom <= height && 0 <= left && right <= width
    }

    function Area(): nat
    {
      if IsEmpty() then 0 else (bottom - top) * (right - left)
    }
  }

  /**
   * The window scanned by count_nonzero_in_rect in Algorith.C: a negative
   * origin is moved to 0, then the extent is cut so that the window ends at
   * the image edge. Nothing is read outside the image.
   */
  function ClampedWindow(r: Rect, height: nat, width: nat): (win: Window)
    ensures win.Inside(height, width)
  {
    var x0 := if r.x < 0 then 0 else r.x;
    var y0 := if r.y < 0 then 0 else r.y;
    var w := if x0 + r.w > width then width - x0 else r.w;
    var h := if y0 + r.h > height then height - y0 else r.h;
    Window(y0, y0 + h, x0, x0 + w)
  }

  /**
   * For a rectangle with a non-negative origin the clamped window is
   * exactly the part of the rectangle that lies inside the image.
   */
  lemma ClampedWindowIsIntersection(r: Rect, height: nat, width: nat, i: int, j: int)
    requires r.x >= 0 && r.y >= 0
    ensures ClampedWindow(r, height, width).Contains(i, j) <==> InRect(r, i, j) && 0 <= i < height && 0 <= j < width
  {
  }

  /**
   * With a negative origin the C clamp keeps the full extent, so the
   * window is shifted rather than intersected with the image: it starts
   * at column 0 and ends at column w, past the rectangle's own right edge.
   * The same holds for rows.
   */
  lemma ClampedWindowShiftsNegativeOrigin(r: Rect, height: nat, width: nat)
    requires r.x < 0 && 0 <= r.w <= width
    ensures ClampedWindow(r, height, width).left == 0 && ClampedWindow(r, height, width).right == r.w
    ensures r.y < 0 && 0 <= r.h <= height ==>
              ClampedWindow(r, height, width).top == 0 && ClampedWindow(r, height, width).bottom == r.h
  {
  }

  /** A 10-column rectangle starting at column -3 is scanned over columns 0 to 9. */
  lemma ClampedWindowShiftExample()
    ensures var win := ClampedWindow(Rect(-3, 0, 10, 1), 1, 20);
            win.Contains(0, 8) && !InRect(Rect(-3, 0, 10, 1), 0, 8)
  {
    ClampedWindowShiftsNegativeOrigin(Rect(-3, 0, 10, 1), 1, 20);
  }

  /**
   * One bound of a Python slice `s[start:stop]` over a sequence of length
   * `len`: a negative bound counts from the end, and the result is cut to
   * [0, len].
   */
  function SliceBound(b: int, len: nat): (k: int)
    ensures 0 <= k <= len
    ensures 0 <= b <= len ==> k == b
  {
    if b < 0 then (if b + len < 0 then 0 else b + len)
    else if b > len then len
    else b
  }

  /**
   * The region of the numpy slice `mask[y:y+h, x:x+w]` taken in
   * raspberry_detector.py, for a mask of the given height and width.
   */
  function SliceWindow(r: Rect, height: nat, width: nat): (win: Window)
    ensures win.Inside(height, width)
  {
    Window(SliceBound(r.y, height), SliceBound(r.y + r.h, height),
           SliceBound(r.x, width), SliceBound(r.x + r.w, width))
  }

  /**
   * On rectangles with non-negative coordinates and extent, as boundingRect
   * produces them, the C clamp and the numpy slice cover the same cells.
   */
  lemma SliceAgreesWithClamp(r: Rect, height: nat, width: nat)
    requires r.x >= 0 && r.y >= 0 && r.w >= 0 && r.h >= 0
    ensures var c, s := ClampedWindow(r, height, width), SliceWindow(r, height, width);
            c.IsEmpty() == s.IsEmpty() && (!c.IsEmpty() ==> c == s)
  {
  }

  /**
   * A negative x wraps around in the numpy slice `mask[y:y+h, x:x+w]`:
   * the start counts from the right edge while a stop of 0 or more does
   * not, so for a rectangle that reaches column 0 and is no wider than the
   * mask the column range is empty, while the C clamp scans columns 0 to
   * w - 1.
   */
  lemma SliceWrapsNegativeOrigin(r: Rect, height: nat, width: nat)
    requires r.x < 0 <= r.x + r.w && r.w <= width
    ensures SliceWindow(r, height, width).IsEmpty()
    ensures ClampedWindow(r, height, width).left == 0 && ClampedWindow(r, height, width).right == r.w
  {
  }

  /** `mask[0:1, -2:3]` of a 10-column mask is empty; the C clamp scans columns 0 to 4. */
  lemma SliceWrapExample()
    ensures SliceWindow(Rect(-2, 0, 5, 1), 1, 10).IsEmpty()
    ensures ClampedWindow(Rect(-2, 0, 5, 1), 1, 10) == Window(0, 1, 0, 5)
  {
    SliceWrapsNegativeOrigin(Rect(-2, 0, 5, 1), 1, 10);
  }
}
