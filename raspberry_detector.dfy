/**
 * The Python implementation (`detect_raspberries` in raspberry_detector.py)
 * from the HSV image on: mask building, region-of-interest counting by
 * numpy slicing, the widest-contour loop, and the result dictionary.
 *
 * OpenCV stays outside: the HSV image is an input, the morphological
 * close and open are the parameters `closing` and `opening`, and the
 * bounding rectangles of the traced contours are the input `contours`.
 */
module RaspberryDetector {
  import opened Wrappers
  import opened Geometry
  import opened Masks
  import opened Segmentation
  import opened Scoring
  import opened Selection

  /**
   * `cv2.countNonZero(mask[y:y+h, x:x+w])`: the number of set pixels in
   * the slice. For rectangles as boundingRect returns them it is the count
   * the C implementation takes over its clamped window.
   */
  function RoiCount(mask: Mask, r: Rect): (n: nat)
    requires Rectangular(mask)
    ensures n == |NonzeroCells(mask, SliceWindow(r, |mask|, Width(mask)))|
    ensures r.x >= 0 && r.y >= 0 && r.w >= 0 && r.h >= 0 ==> n == CountWindow(mask, ClampedWindow(r, |mask|, Width(mask)))
  {
    var win := SliceWindow(r, |mask|, Width(mask));
    CountWindowIsCardinality(mask, win);
    if r.x >= 0 && r.y >= 0 && r.w >= 0 && r.h >= 0 then
      SliceAgreesWithClamp(r, |mask|, Width(mask));
      CountWindow(mask, win)
    else
      CountWindow(mask, win)
  }

  /** `red_pixels / fruit_pixels if fruit_pixels > 0 else 0.0` for one rectangle. */
  function RoiRatio(redMask: Mask, fruitMask: Mask, r: Rect): real
    requires Rectangular(redMask) && Rectangular(fruitMask)
  {
    Ratio(RoiCount(redMask, r), RoiCount(fruitMask, r))
  }

  /**
   * The `for contour in contours` loop: keeps the first rectangle of
   * strictly greatest width and its ratio. `best_rect` stays None exactly
   * when no width is positive.
   */
  method SelectWidest(redMask: Mask, fruitMask: Mask, contours: seq<Rect>)
    returns (bestRect: Option<Rect>, bestColorRatio: real, ghost best: int)
    requires Rectangular(redMask) && Rectangular(fruitMask)
    ensures bestRect.None? <==> NoPositiveWidth(contours)
    ensures bestRect.None? ==> bestColorRatio == 0.0
    ensures bestRect.Some? ==> IsFirstWidest(contours, best) && bestRect.value == contours[best] &&
                               bestColorRatio == RoiRatio(redMask, fruitMask, contours[best])
  {
    var bestWidth := 0;
    bestRect, bestColorRatio, best := None, 0.0, -1;
    var i := 0;
    while i < |contours|
      invariant 0 <= i <= |contours|
      invariant bestWidth >= 0
      invariant forall j :: 0 <= j < i ==> contours[j].w <= bestWidth
      invariant bestRect.None? <==> bestWidth == 0
      invariant bestRect.None? ==> bestColorRatio == 0.0
      invariant bestRect.Some? ==> 0 <= best < i && bestRect.value == contours[best] && bestWidth == contours[best].w &&
                                   (forall j :: 0 <= j < best ==> contours[j].w < bestWidth) &&
                                   bestColorRatio == RoiRatio(redMask, fruitMask, contours[best])
    {
      var Rect(x, y, w, h) := contours[i];
      var redPixels := RoiCount(redMask, contours[i]);
      var fruitPixels := RoiCount(fruitMask, contours[i]);
      var colorRatio := Ratio(redPixels, fruitPixels);
      if w > bestWidth {
        bestWidth := w;
        bestRect := Some(Rect(x, y, w, h));
        bestColorRatio := colorRatio;
        best := i;
      }
      i := i + 1;
    }
  }

  /** The dictionary `detect_raspberries` returns. */
  datatype Report = Report(
    isRipe: bool,
    widthPx: int,
    widthMm: real,
    confidenceColor: real,
    confidenceSize: real,
    boundingBox: Rect,
    colorRatio: real)

  /**
   * The results block for the chosen rectangle: the verdict is taken on
   * the reported ratio, the physical width scales the reported pixel
   * width, and both confidences lie in [0, 1]; the colour confidence is
   * the ratio clamped to [0, 1] (the ratio itself when it lies there, 1
   * when the cleaned red mask outgrows the fruit mask), and the size
   * confidence is the piecewise ramp of raspberry_detector.py.
   */
  function Summarize(rect: Rect, ratio: real, scale: real): (r: Report)
    ensures r.boundingBox == rect && r.widthPx == rect.w && r.colorRatio == ratio
    ensures r.isRipe <==> r.colorRatio >= RIPENESS_THRESHOLD
    ensures r.widthMm == WidthMm(r.widthPx, scale)
    ensures 0.0 <= r.confidenceColor <= 1.0 && 0.0 <= r.confidenceSize <= 1.0
    ensures 0.0 <= ratio <= 1.0 ==> r.confidenceColor == ratio
    ensures r.confidenceColor == Clamp01(ratio)
    ensures r.confidenceSize == SizeConfidence(r.widthMm)
  {
    var widthMm := rect.w as real * scale;
    Report(
      isRipe := ratio >= RIPENESS_THRESHOLD,
      widthPx := rect.w,
      widthMm := widthMm,
      confidenceColor := Clamp01(ratio),
      confidenceSize := SizeConfidence(widthMm),
      boundingBox := rect,
      colorRatio := ratio)
  }

  /**
   * `detect_raspberries` from the HSV image on. The red mask is cleaned by
   * a close then an open; the fruit mask is not cleaned. None is returned
   * for an empty contour list and, more generally, exactly when no contour
   * has a positive width; otherwise the report describes the first widest
   * contour, with its ratio counted on the cleaned red mask.
   */
  method DetectRaspberries(hsv: seq<seq<Hsv>>, scale: real, closing: Mask -> Mask, opening: Mask -> Mask,
                           contours: seq<Rect>)
    returns (result: Option<Report>)
    requires Rectangular(hsv)
    requires Rectangular(opening(closing(RedMask(hsv))))
    ensures |contours| == 0 ==> result.None?
    ensures result.None? <==> NoPositiveWidth(contours)
    ensures result.Some? ==>
      var red, fruit := opening(closing(RedMask(hsv))), FruitMask(hsv);
      exists k :: IsFirstWidest(contours, k) &&
                  result.value == Summarize(contours[k], RoiRatio(red, fruit, contours[k]), scale)
  {
    var redMask := opening(closing(RedMask(hsv)));
    var fruitMask := FruitMask(hsv);
    if |contours| == 0 {
      return None;
    }
    var bestRect, bestColorRatio, best := SelectWidest(redMask, fruitMask, contours);
    if bestRect.None? {
      return None;
    }
    result := Some(Summarize(bestRect.value, bestColorRatio, scale));
    assert IsFirstWidest(contours, best);
  }

  /**
   * Without noise suppression every red pixel is a fruit pixel, so the
   * ratio of any rectangle is at most 1 and the colour confidence reports
   * it unchanged.
   */
  lemma RawColorConfidenceIsRatio(hsv: seq<seq<Hsv>>, r: Rect, scale: real)
    requires Rectangular(hsv)
    ensures var ratio := RoiRatio(RedMask(hsv), FruitMask(hsv), r);
            0.0 <= ratio <= 1.0 && Summarize(r, ratio, scale).confidenceColor == ratio
  {
    var red, fruit := RedMask(hsv), FruitMask(hsv);
    var win := SliceWindow(r, |hsv|, Width(hsv));
    forall i, j | win.Contains(i, j) && red[i][j] != 0
      ensures fruit[i][j] != 0
    {
      RedPixelsAreFruitPixels(hsv, i, j);
    }
    CountWindowMonotone(red, fruit, win);
    RatioAtMostOne(RoiCount(red, r), RoiCount(fruit, r));
  }
}
