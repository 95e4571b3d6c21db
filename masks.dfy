/**
 * Single-channel 8-bit images (masks) and the number of set pixels in a
 * window of one. A mask is a sequence of rows; a pixel is set when it is
 * nonzero, as cvCountNonZero, cv2.countNonZero and the `row[x] != 0` test
 * of count_nonzero_in_rect all read it.
 */
module Masks {
  import opened Geometry

  /** One IPL_DEPTH_8U / uint8 sample. */
  type Byte = x: int | 0 <= x < 256

  type Mask = seq<seq<Byte>>

  /** Every row has the length of the first: an image of Width(g) columns. */
  predicate Rectangular<T>(g: seq<seq<T>>)
  {
    forall i :: 0 <= i < |g| ==> |g[i]| == |g[0]|
  }

  function Width<T>(g: seq<seq<T>>): nat
  {
    if |g| == 0 then 0 else |g[0]|
  }

  predicate SameShape<T, U>(a: seq<seq<T>>, b: seq<seq<U>>)
  {
    |a| == |b| && forall i :: 0 <= i < |a| ==> |a[i]| == |b[i]|
  }

  /** A mask of the same shape as a rectangular image is rectangular and as wide. */
  lemma SameShapeRectangular<T>(m: Mask, img: seq<seq<T>>)
    requires Rectangular(img) && SameShape(m, img)
    ensures Rectangular(m) && Width(m) == Width(img)
  {
  }

  /**
   * The window can be read from the mask: a window with rows reaches no
   * further than the mask's last row and column.
   */
  predicate Fits(m: Mask, win: Window)
  {
    Rectangular(m) && 0 <= win.top && 0 <= win.left &&
    (win.top < win.bottom ==> win.bottom <= |m| && win.right <= Width(m))
  }

  /** Number of nonzero samples of row[lo..hi]; zero when the range is empty. */
  function CountRow(row: seq<Byte>, lo: int, hi: int): (n: nat)
    requires 0 <= lo && (lo < hi ==> hi <= |row|)
    ensures hi <= lo ==> n == 0
    ensures lo < hi ==> n <= hi - lo
    decreases hi - lo
  {
    if hi <= lo then 0
    else CountRow(row, lo, hi - 1) + (if row[hi - 1] != 0 then 1 else 0)
  }

  /** Number of nonzero pixels of the mask inside the window. */
  function CountWindow(m: Mask, win: Window): (n: nat)
    requires Fits(m, win)
    ensures win.IsEmpty() ==> n == 0
    ensures n <= win.Area()
    decreases win.bottom - win.top
  {
    if win.bottom <= win.top then 0
    else
      var above := win.(bottom := win.bottom - 1);
      var n := CountWindow(m, above) + CountRow(m[win.bottom - 1], win.left, win.right);
      assert !win.IsEmpty() ==> win.Area() == above.Area() + (win.right - win.left) by {
        if !win.IsEmpty() {
          assert (win.bottom - win.top) * (win.right - win.left)
              == (win.bottom - 1 - win.top) * (win.right - win.left) + (win.right - win.left);
        }
      }
      n
  }

  /** Counting a window one more row down adds that row's count. */
  lemma CountWindowAddsRow(m: Mask, win: Window, y: int)
    requires Fits(m, win) && win.top <= y < win.bottom
    ensures CountWindow(m, win.(bottom := y + 1)) == CountWindow(m, win.(bottom := y)) + CountRow(m[y], win.left, win.right)
  {
  }

  /** The set pixels of the window, as (row, column) cells. */
  function NonzeroCells(m: Mask, win: Window): set<(int, int)>
    requires Fits(m, win)
  {
    set i, j | win.top <= i < win.bottom && win.left <= j < win.right && m[i][j] != 0 :: (i, j)
  }

  /** The set pixels of row r between columns lo and hi. */
  function RowCells(row: seq<Byte>, r: int, lo: int, hi: int): set<(int, int)>
    requires 0 <= lo && (lo < hi ==> hi <= |row|)
  {
    set j | lo <= j < hi && row[j] != 0 :: (r, j)
  }

  /** CountRow counts exactly the set pixels of the row range. */
  lemma {:induction false} CountRowIsCardinality(row: seq<Byte>, r: int, lo: int, hi: int)
    requires 0 <= lo && (lo < hi ==> hi <= |row|)
    ensures CountRow(row, lo, hi) == |RowCells(row, r, lo, hi)|
    decreases hi - lo
  {
    if hi <= lo {
      assert RowCells(row, r, lo, hi) == {};
    } else {
      CountRowIsCardinality(row, r, lo, hi - 1);
      var last := if row[hi - 1] != 0 then {(r, hi - 1)} else {};
      assert RowCells(row, r, lo, hi) == RowCells(row, r, lo, hi - 1) + last;
      assert (r, hi - 1) !in RowCells(row, r, lo, hi - 1);
    }
  }

  /**
   * The recursive count is the number of nonzero cells of the window, so
   * it does not depend on the order in which the cells are visited.
   */
  lemma {:induction false} CountWindowIsCardinality(m: Mask, win: Window)
    requires Fits(m, win)
    ensures CountWindow(m, win) == |NonzeroCells(m, win)|
    decreases win.bottom - win.top
  {
    if win.bottom <= win.top {
      assert NonzeroCells(m, win) == {};
    } else {
      var above := win.(bottom := win.bottom - 1);
      var r := win.bottom - 1;
      CountWindowIsCardinality(m, above);
      CountRowIsCardinality(m[r], r, win.left, win.right);
      assert NonzeroCells(m, win) == NonzeroCells(m, above) + RowCells(m[r], r, win.left, win.right);
      assert NonzeroCells(m, above) !! RowCells(m[r], r, win.left, win.right);
    }
  }

  /** A mask whose set pixels are set in another has no larger count. */
  lemma {:induction false} CountWindowMonotone(a: Mask, b: Mask, win: Window)
    requires Fits(a, win) && Fits(b, win)
    requires forall i, j :: win.Contains(i, j) && a[i][j] != 0 ==> b[i][j] != 0
    ensures CountWindow(a, win) <= CountWindow(b, win)
  {
    CountWindowIsCardinality(a, win);
    CountWindowIsCardinality(b, win);
    assert NonzeroCells(a, win) <= NonzeroCells(b, win);
    SubsetCardinality(NonzeroCells(a, win), NonzeroCells(b, win));
  }

  lemma SubsetCardinality<T>(s: set<T>, t: set<T>)
    requires s <= t
    ensures |s| <= |t|
  {
    assert t == s + (t - s);
  }

  /** A window of which every pixel is set counts its whole area. */
  lemma {:induction false} FullWindowCountsArea(m: Mask, win: Window)
    requires Fits(m, win)
    requires forall i, j :: win.Contains(i, j) ==> m[i][j] != 0
    ensures CountWindow(m, win) == win.Area()
    decreases win.bottom - win.top
  {
    if win.bottom > win.top && win.right > win.left {
      var above := win.(bottom := win.bottom - 1);
      FullWindowCountsArea(m, above);
      FullRowCountsLength(m[win.bottom - 1], win.left, win.right);
      assert (win.bottom - win.top) * (win.right - win.left)
          == (win.bottom - 1 - win.top) * (win.right - win.left) + (win.right - win.left);
    }
  }

  lemma {:induction false} FullRowCountsLength(row: seq<Byte>, lo: int, hi: int)
    requires 0 <= lo < hi <= |row|
    requires forall j :: lo <= j < hi ==> row[j] != 0
    ensures CountRow(row, lo, hi) == hi - lo
    decreases hi - lo
  {
    if hi - 1 > lo {
      FullRowCountsLength(row, lo, hi - 1);
    }
  }
}
