# Raspberry ripeness and size detector — verified model

This project models the detection-and-scoring core of a small computer-vision
program that finds the widest raspberry in an image taken against a green
background. It classifies the raspberry as RIPE or UNRIPE, estimates its width
in millimetres, and reports a colour confidence and a size confidence. The
program exists twice, in C against the legacy OpenCV C API (`Algorith.C`) and
in Python against `cv2` (`raspberry_detector.py`). Both are modelled, each in
its own form.

- `Wrappers`: the `Option` type that stands for Python's `None`.
- `Geometry`: bounding rectangles and the pixel windows counted for them. The
  C window comes from the clamping in `count_nonzero_in_rect`. The Python
  window comes from numpy slicing, where negative bounds count from the end.
- `Masks`: 8-bit single-channel masks and recursive counts of their nonzero
  pixels. A reference definition (the set of nonzero cells) is proved equal to
  the count.
- `Segmentation`: the HSV thresholds, the inclusive range test, and the red,
  green and fruit masks built with bitwise OR and NOT. Both files use the same
  thresholds.
- `Scoring`: the redness ratio, the ripeness threshold, the width in mm, and
  the clamp to [0, 1]. It holds both size-confidence formulas: the C linear
  ramp and the Python piecewise ramp that decays above the range.
- `Selection`: the rule "first contour of strictly greatest positive width".
- `Algorith` (the C file, imperative): `count_nonzero_in_rect` as a method over
  an `array2`. Its clamping steps (`ClampRect`) and its inner row loop
  (`CountRowInImage`) are separate methods that it calls, each proved against
  its own specification. The contour scan is a loop that updates the
  best width, rectangle and ratio. The scoring block clamps by reassigning
  step by step. `Detect` chains these from the HSV image to the outcome.
- `RaspberryDetector` (the Python file, mixed): the selection loop is a method.
  Masks, ROI counts, the ratio and the result dictionary are functions.
  `DetectRaspberries` chains them.

OpenCV is not modelled. The HSV image is an input grid of integer triples. The
noise filter is a function parameter: a median filter applied to both masks
in C, and a close followed by an open applied to the red mask only in Python.
The contour tracer's output is an input sequence of bounding rectangles.

Behaviour of the code worth knowing:

- The scale factor is never validated, so a negative scale gives a negative
  `width_mm`.
- The C size confidence is a plain clamped ramp. The Python one decays above
  30 mm and is 0 exactly at 10 mm, just after values near 1 below 10 mm.
- For rectangles with a negative origin, the C clamp keeps the full extent, so
  the window shifts instead of being cut. The numpy slice wraps around instead.
  Both agree on rectangles with non-negative coordinates, which is what
  boundingRect produces.

## Model

| member | source | states |
|---|---|---|
| `Geometry.ClampedWindow` | Algorith.C:47-53 | the clamped window lies inside the image, so no pixel outside the buffer is read |
| `Geometry.ClampedWindowIsIntersection` | Algorith.C:50-53 | for a non-negative origin, a cell is scanned iff it lies in the rectangle and in the image |
| `Geometry.ClampedWindowShiftsNegativeOrigin` | Algorith.C:50-53 | for any rectangle with a negative x and an extent no wider than the image, the scanned columns are 0 to w − 1, and likewise the rows for a negative y: the origin moves to 0 without shortening the extent |
| `Geometry.ClampedWindowShiftExample` | Algorith.C:50-52 | a 10-column rectangle at column −3 is scanned up to column 9, which lies outside it |
| `Geometry.SliceWindow` | raspberry_detector.py:112-113 | the region of `mask[y:y+h, x:x+w]` lies inside the mask |
| `Geometry.SliceAgreesWithClamp` | raspberry_detector.py:112-113 | for rectangles with non-negative x, y, w, h the numpy slice and the C clamp give the same window, or both are empty |
| `Geometry.SliceWrapsNegativeOrigin` | raspberry_detector.py:112-113 | for any rectangle with a negative x that reaches column 0 and is no wider than the mask, the slice's column range is empty while the C clamp scans columns 0 to w − 1 |
| `Geometry.SliceWrapExample` | raspberry_detector.py:112-113 | `mask[0:1, -2:3]` of a 10-column mask is empty where the C clamp scans columns 0 to 4 |
| `Masks.CountRow` | Algorith.C:57-59 | the count of a row range is 0 when the range is empty and at most its length otherwise |
| `Masks.CountWindow` | Algorith.C:55-61 | the window count is 0 for an empty window and at most the window's area |
| `Masks.CountRowIsCardinality` | Algorith.C:57-59 | the row count equals the number of nonzero cells in the row range |
| `Masks.CountWindowIsCardinality` | Algorith.C:55-61 | the window count equals the number of nonzero cells of the window |
| `Masks.FullWindowCountsArea` | Algorith.C:55-61 | a window whose pixels are all set counts exactly its area, so the area bound is reached |
| `Masks.CountWindowMonotone` | raspberry_detector.py:116-117 | a mask whose set pixels are set in a second mask counts no more than the second |
| `Segmentation.BitOrNonzero` | Algorith.C:93 | bitwise OR of two samples is nonzero iff one of them is |
| `Segmentation.BitNotBinary` | Algorith.C:99 | bitwise NOT maps mask value 0 to 255 and 255 to 0 |
| `Segmentation.RedMask` | Algorith.C:90-93 | a red-mask pixel is set iff its HSV triple lies inclusively in red range 1 or red range 2; the mask is binary and has the image's shape |
| `Segmentation.GreenMask` | Algorith.C:95-96 | a green-mask pixel is set iff its HSV triple lies inclusively in the green range |
| `Segmentation.FruitMask` | Algorith.C:98-99 | a fruit-mask pixel is set iff the pixel is not in the green range |
| `Segmentation.RedPixelsAreFruitPixels` | Algorith.C:30-37 | red and green hue ranges do not meet, so every raw red pixel is a fruit pixel |
| `Segmentation.RedNeedsTwoRanges` | Algorith.C:28-33 | no single inclusive HSV range equals the red set, since red wraps around hue 0 |
| `Scoring.Ratio` | Algorith.C:131-132 | the ratio is red/fruit when fruit > 0 and 0 otherwise, and is never negative |
| `Scoring.RatioAtMostOne` | raspberry_detector.py:120 | the ratio is at most 1 when the red count does not exceed the fruit count |
| `Scoring.RipeIffTwiceRedCoversFruit` | Algorith.C:156-157 | `ratio >= 0.5` holds iff fruit > 0 and 2 × red ≥ fruit, over the integer counts |
| `Scoring.WidthMmMonotoneInScale` | Algorith.C:160 | for a fixed non-negative pixel width, a larger scale never gives a smaller `width_mm` |
| `Scoring.Clamp01` | raspberry_detector.py:143 | `min(1, max(0, x))` lies in [0,1], equals x on [0,1], is 0 below and 1 above |
| `Scoring.Clamp01Monotone` | raspberry_detector.py:143 | the clamp is monotone non-decreasing |
| `Scoring.LinearSizeConfidence` | Algorith.C:167-170 | the C size confidence lies in [0,1], is 0 up to 10 mm, 1 from 30 mm, and (w − 10)/20 in between |
| `Scoring.LinearSizeConfidenceMonotone` | Algorith.C:167-170 | the C size confidence never decreases as the width grows |
| `Scoring.SizeConfidence` | raspberry_detector.py:145-152 | the Python size confidence lies in [0,1]: w/10 below 10 mm, (w − 10)/20 on [10, 30], 1 − min(1, (w − 30)/30) above 30 mm |
| `Scoring.SizeConfidenceZeroAtMinimum` | raspberry_detector.py:150-151 | exactly at 10 mm the Python size confidence is 0 |
| `Scoring.SizeConfidenceVanishesFromTwiceMaximum` | raspberry_detector.py:148-149 | from 60 mm on the Python size confidence is 0 |
| `Scoring.SizeConfidenceFullOnlyAtMaximum` | raspberry_detector.py:146-152 | the Python size confidence is 1 at 30 mm and nowhere else |
| `Scoring.SizeConfidenceDropsAtMinimum` | raspberry_detector.py:146-151 | the Python size confidence is not monotone: 0.95 at 9.5 mm, then 0 at 10 mm |
| `Scoring.SizeVariantsAgreeIff` | raspberry_detector.py:146-152 | the Python and C size confidences agree iff the width is ≤ 0 or within [10, 30] mm |
| `Selection.WidestIndex` | Algorith.C:134-139 | the index returned is the first one of greatest width in a non-empty list |
| `Selection.FirstWidestUnique` | Algorith.C:135-139 | the strict-greater tie-break gives at most one winner |
| `Selection.FirstWidestExists` | Algorith.C:117-140 | a first-widest contour exists iff some contour has a positive width |
| `Algorith.ClampedWindowFits` | Algorith.C:55-57 | the clamped window of any rectangle can be read from the image buffer |
| `Algorith.ClampRect` | Algorith.C:47-53 | the clamped origin and extent describe exactly the window `ClampedWindow` specifies |
| `Algorith.CountRowInImage` | Algorith.C:56-59 | the inner loop counts the nonzero samples of row y from column x0 up to x0 + w |
| `Algorith.CountNonzeroInRect` | Algorith.C:44-62 | returns 0 for a null image, otherwise the number of nonzero samples in the clamped window; every sample read is in bounds |
| `Algorith.SelectWidest` | Algorith.C:116-140 | the best width is 0 iff no width is positive, leaving the zero rectangle and ratio 0; otherwise it is the first contour of greatest width, with its rectangle and its ratio |
| `Algorith.Estimate` | Algorith.C:155-170 | ripe iff ratio ≥ 0.5; `width_mm` = width × scale; colour confidence is the ratio clamped to [0,1]; size confidence is the clamped linear ramp |
| `Algorith.Detect` | Algorith.C:90-170 | NONE iff no contour has a positive width; otherwise the first widest contour is scored with its ratio counted on the median-filtered masks |
| `RaspberryDetector.RoiCount` | raspberry_detector.py:111-117 | the ROI count is the number of nonzero cells of the numpy slice, and equals the C count for boundingRect-style rectangles |
| `RaspberryDetector.SelectWidest` | raspberry_detector.py:101-131 | `best_rect` is None iff no width is positive, with ratio 0; otherwise it is the first contour of greatest width, with its ROI ratio |
| `RaspberryDetector.Summarize` | raspberry_detector.py:134-152 | the verdict uses the reported ratio; `width_mm` = `width_px` × scale; both confidences lie in [0,1]; the colour confidence is the ratio clamped to [0,1], so 1 when the cleaned red mask counts more than the fruit mask; size uses the piecewise ramp |
| `RaspberryDetector.DetectRaspberries` | raspberry_detector.py:70-193 | None for an empty contour list and exactly when no width is positive; otherwise the dictionary of the first widest contour, ratio counted on the cleaned red mask and the uncleaned fruit mask |
| `RaspberryDetector.RawColorConfidenceIsRatio` | raspberry_detector.py:142-143 | without noise suppression the ratio of any rectangle lies in [0,1], so the colour confidence equals it |

## Left out

- Image loading and its failure path (`cvLoadImage`, `cv2.imread`) and command-line parsing (`atof`, argparse): I/O. The model starts from the decoded HSV image and the scale. The default scale of 0.5 mm per pixel (Algorith.C:67, raspberry_detector.py:41) is the constant `Scoring.DEFAULT_SCALE_MM_PER_PX`; choosing it when no scale is given is part of that parsing.
- BGR to HSV conversion: an OpenCV numeric routine whose output is the model's input.
- The median filter (`cvSmooth`) and the morphological close and open (`morphologyEx`): library filters whose pixel output is not visible here. Each is a caller-supplied function on masks that keeps the mask's shape.
- Contour tracing and bounding rectangles (`cvFindContours`, `cvBoundingRect`, `cv2.findContours`, `cv2.boundingRect`): library algorithms. Their result is the input sequence of rectangles. So the claim that an empty red mask yields no detection depends on the tracer and is not proved.
- The C contour list is a linked list walked through `h_next`. It is modelled as a sequence in list order. The Python `best_contour` (the point list) is only drawn, so it is not kept.
- Drawing, text, windows, `waitKey`, and console output: presentation only.
- Memory management (`cvReleaseImage`, `cvReleaseMemStorage`): no counterpart in the model.
- IEEE double rounding: ratios, widths and confidences are exact reals. The C `double` copies of integer widths are exact, so the C width is an integer.
- 32-bit `int` overflow in `x0 + w` and in the counts: integers are unbounded. Rectangles from the contour tracer lie inside the image, so no overflow arises in practice.
- `cv2.countNonZero` on an empty slice: modelled as 0. Slices of boundingRect rectangles are never empty.
- Validating the configuration (rejecting a non-positive scale): neither file does it, so the model does not either.
- Concurrency and batch processing: each run is a single synchronous computation.
