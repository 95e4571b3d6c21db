/**
 * The C implementation (Algorith.C): pixel counting over an 8-bit image
 * buffer, the widest-contour scan and the scoring block of `main`.
 *
 * OpenCV stays outside: the HSV image is an input, the median filter is
 * the parameter `smooth`, and the bounding rectangles of the traced
 * contours are the input `contours`, in the order of the contour list.
 */
module Algorith {
  import opened Geometry
  import opened Masks
  import opened Segmentation
  import opened Scoring
  import opened Selection

  /** The samples of a single-channel image buffer, row by row. */
  function Pixels(img: array2<Byte>): (g: Mask)
    reads img
    ensures |g| == img.Length0
    ensures forall i :: 0 <= i < |g| ==> |g[i]| == img.Length1
    ensures forall i, j :: 0 <= i < img.Length0 && 0 <= j < img.Length1 ==> g[i][j] == img[i, j]
  {
    seq(img.Length0, i requires 0 <= i < img.Length0 reads img =>
      seq(img.Length1, j requires 0 <= j < img.Length1 reads img => img[i, j]))
  }

  /** The window count_nonzero_in_rect scans in an image buffer can be read from it. */
  lemma ClampedWindowFits(img: array2<Byte>, r: Rect)
    ensures Fits(Pixels(img), ClampedWindow(r, img.Length0, img.Length1))
  {
  }

  /** The number of nonzero samples of the buffer in the clamped window of r. */
  function RectCount(img: array2<Byte>, r: Rect): nat
    reads img
  {
    ClampedWindowFits(img, r);
    CountWindow(Pixels(img), ClampedWindow(r, img.Length0, img.Length1))
  }

  /**
   * count_nonzero_in_rect: 0 for a null image; otherwise the number of
   * nonzero samples in the rectangle after its origin is moved into the
   * image and its extent cut at the image edge. Every sample read lies
   * inside the buffer.
   */
  method CountNonzeroInRect(img: array2?<Byte>, rect: Rect) returns (count: int)
    ensures img == null ==> count == 0
    ensures img != null ==> count == RectCount(img, rect)
  {
    count := 0;
    if img == null {
      return 0;
    }
    ghost var g := Pixels(img);
    ghost var win := ClampedWindow(rect, img.Length0, img.Length1);
    ClampedWindowFits(img, rect);
    var x0, y0, w, h := ClampRect(rect, img.Length0, img.Length1);

    var y := y0;
    while y < y0 + h
      invariant y0 <= y && (y0 < y ==> y <= y0 + h)
      invariant count == CountWindow(g, win.(bottom := y))
    {
      var rowCount := CountRowInImage(img, y, x0, x0 + w);
      count := count + rowCount;
      CountWindowAddsRow(g, win, y);
      y := y + 1;
    }
  }

  /** The inner loop of count_nonzero_in_rect: the set samples of row y from column x0 up to x1. */
  method CountRowInImage(img: array2<Byte>, y: int, x0: int, x1: int) returns (count: int)
    requires 0 <= y < img.Length0 && 0 <= x0 && (x0 < x1 ==> x1 <= img.Length1)
    ensures count == CountRow(Pixels(img)[y], x0, x1)
  {
    ghost var row := Pixels(img)[y];
    count := 0;
    var x := x0;
    while x < x1
      invariant x0 <= x && (x0 < x ==> x <= x1)
      invariant count == CountRow(row, x0, x)
    {
      if img[y, x] != 0 {
        count := count + 1;
      }
      x := x + 1;
    }
  }

  /**
   * The clamping at the head of count_nonzero_in_rect: a negative origin
   * moves to 0, then an extent that overruns the image is cut at its edge.
   * The result is the window the count scans.
   */
  method ClampRect(rect: Rect, height: nat, width: nat) returns (x0: int, y0: int, w: int, h: int)
    ensures Window(y0, y0 + h, x0, x0 + w) == ClampedWindow(rect, height, width)
  {
    x0, y0, w, h := rect.x, rect.y, rect.w, rect.h;
    if x0 < 0 { x0 := 0; }
    if y0 < 0 { y0 := 0; }
    if x0 + w > width { w := width - x0; }
    if y0 + h > height { h := height - y0; }
  }

  /** The redness ratio the C scan computes for one bounding rectangle. */
  function RectRatio(redMask: array2<Byte>, fruitMask: array2<Byte>, r: Rect): real
    reads redMask, fruitMask
  {
    Ratio(RectCount(redMask, r), RectCount(fruitMask, r))
  }

  /**
   * The loop over the contour list in `main`: keeps the widest rectangle,
   * replacing it only on a strictly greater width, so the first contour of
   * greatest width wins, together with its redness ratio. When no width is
   * positive the initial zero rectangle, width and ratio remain.
   */
  method SelectWidest(redMask: array2<Byte>, fruitMask: array2<Byte>, contours: seq<Rect>)
    returns (bestWidth: int, bestRect: Rect, bestColorRatio: real, ghost best: int)
    ensures bestWidth >= 0
    ensures bestWidth == 0 <==> NoPositiveWidth(contours)
    ensures bestWidth == 0 ==> bestRect == Rect(0, 0, 0, 0) && bestColorRatio == 0.0
    ensures bestWidth > 0 ==> IsFirstWidest(contours, best) && bestRect == contours[best] &&
                              bestWidth == bestRect.w && bestColorRatio == RectRatio(redMask, fruitMask, bestRect)
  {
    bestWidth, bestRect, bestColorRatio, best := 0, Rect(0, 0, 0, 0), 0.0, -1;
    var i := 0;
    while i < |contours|
      invariant 0 <= i <= |contours|
      invariant bestWidth >= 0
      invariant forall j :: 0 <= j < i ==> contours[j].w <= bestWidth
      invariant bestWidth == 0 ==> bestRect == Rect(0, 0, 0, 0) && bestColorRatio == 0.0
      invariant bestWidth > 0 ==> 0 <= best < i && bestRect == contours[best] && bestWidth == bestRect.w &&
                                  (forall j :: 0 <= j < best ==> contours[j].w < bestWidth) &&
                                  bestColorRatio == RectRatio(redMask, fruitMask, bestRect)
    {
      var rect := contours[i];
      var widthPx := rect.w;
      var redPixels := CountNonzeroInRect(redMask, rect);
      var fruitPixels := CountNonzeroInRect(fruitMask, rect);
      var ratio := 0.0;
      if fruitPixels > 0 {
        ratio := redPixels as real / fruitPixels as real;
      }
      assert ratio == RectRatio(redMask, fruitMask, rect);
      if widthPx > bestWidth {
        bestWidth, bestRect, bestColorRatio, best := widthPx, rect, ratio, i;
      }
      i := i + 1;
    }
  }

  /**
   * The scoring block of `main`: ripe when the ratio reaches the
   * threshold, the physical width from the scale, the ratio clamped to
   * [0, 1] as colour confidence, and the linear ramp over the expected
   * width range, clamped to [0, 1], as size confidence.
   */
  method Estimate(bestWidth: int, bestColorRatio: real, scale: real)
    returns (isRipe: bool, widthMm: real, confColor: real, confSize: real)
    ensures isRipe <==> bestColorRatio >= RIPENESS_THRESHOLD
    ensures widthMm == WidthMm(bestWidth, scale)
    ensures confColor == Clamp01(bestColorRatio)
    ensures confSize == LinearSizeConfidence(widthMm)
  {
    isRipe := bestColorRatio >= RIPENESS_THRESHOLD;
    widthMm := bestWidth as real * scale;
    confColor := bestColorRatio;
    if confColor < 0.0 { confColor := 0.0; }
    if confColor > 1.0 { confColor := 1.0; }
    confSize := (widthMm - EXPECTED_MIN_MM) / (EXPECTED_MAX_MM - EXPECTED_MIN_MM);
    if confSize < 0.0 { confSize := 0.0; }
    if confSize > 1.0 { confSize := 1.0; }
  }

  /** What `main` reports: NONE, or the verdict for the widest raspberry. */
  datatype Detection =
    | NoRaspberry
    | Raspberry(isRipe: bool, widthPx: int, widthMm: real, confColor: real, confSize: real, bestRect: Rect)

  /**
   * The detection pipeline of `main` from the HSV image on: red and fruit
   * masks, both median-filtered, the widest-contour scan on the filtered
   * masks, and the score of the winner. NONE exactly when no contour has a
   * positive width; otherwise the report describes the first widest
   * contour, with the ratio counted on the filtered masks.
   */
  method Detect(hsv: seq<seq<Hsv>>, scale: real, smooth: Mask -> Mask, contours: seq<Rect>)
    returns (d: Detection)
    requires Rectangular(hsv)
    requires SameShape(smooth(RedMask(hsv)), hsv) && SameShape(smooth(FruitMask(hsv)), hsv)
    ensures d.NoRaspberry? <==> NoPositiveWidth(contours)
    ensures d.Raspberry? ==>
      var red, fruit := smooth(RedMask(hsv)), smooth(FruitMask(hsv));
      exists k :: IsFirstWidest(contours, k) && d.bestRect == contours[k] && d.widthPx == contours[k].w &&
        var ratio := WindowRatio(red, fruit, ClampedWindow(contours[k], |hsv|, Width(hsv)));
        d.isRipe == (ratio >= RIPENESS_THRESHOLD) && d.widthMm == WidthMm(d.widthPx, scale) &&
        d.confColor == Clamp01(ratio) && d.confSize == LinearSizeConfidence(d.widthMm)
  {
    var red := smooth(RedMask(hsv));
    var fruit := smooth(FruitMask(hsv));
    SameShapeRectangular(red, hsv);
    SameShapeRectangular(fruit, hsv);
    var height, width := |hsv|, Width(hsv);
    var redImg := new Byte[height, width]((i, j) requires 0 <= i < height && 0 <= j < width => red[i][j]);
    var fruitImg := new Byte[height, width]((i, j) requires 0 <= i < height && 0 <= j < width => fruit[i][j]);
    forall i | 0 <= i < height
      ensures Pixels(redImg)[i] == red[i] && Pixels(fruitImg)[i] == fruit[i]
    {
      assert |red[i]| == |fruit[i]| == width;
    }
    assert Pixels(redImg) == red && Pixels(fruitImg) == fruit;

    var bestWidth, bestRect, bestColorRatio, best := SelectWidest(redImg, fruitImg, contours);
    if bestWidth <= 0 {
      return NoRaspberry;
    }
    var isRipe, widthMm, confColor, confSize := Estimate(bestWidth, bestColorRatio, scale);
    d := Raspberry(isRipe, bestWidth, widthMm, confColor, confSize, bestRect);
    assert bestColorRatio == WindowRatio(red, fruit, ClampedWindow(contours[best], height, width));
    assert IsFirstWidest(contours, best) && d.bestRect == contours[best] && d.widthPx == contours[best].w;
  }
}
