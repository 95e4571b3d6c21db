/**
 * Ripeness and size scoring of the winning candidate. Ratios, widths and
 * confidences are real numbers; the rounding of IEEE doubles is not
 * modelled. The constants are those of Algorith.C (lines 40-41, 67, 156)
 * and raspberry_detector.py (lines 34-41), which agree.
 */
module Scoring {
  import opened Geometry
  import opened Masks

  const RIPENESS_THRESHOLD: real := 0.5
  const EXPECTED_MIN_MM: real := 10.0
  const EXPECTED_MAX_MM: real := 30.0
  /** Millimetres per pixel when the command line gives no scale. */
  const DEFAULT_SCALE_MM_PER_PX: real := 0.5

  /**
   * The redness ratio of a candidate: red pixels over fruit pixels, or 0
   * when the box holds no fruit pixel. It is never negative.
   */
  function Ratio(redPixels: nat, fruitPixels: nat): (r: real)
    ensures r >= 0.0
    ensures fruitPixels == 0 ==> r == 0.0
    ensures fruitPixels > 0 ==> r * fruitPixels as real == redPixels as real
  {
    if fruitPixels > 0 then redPixels as real / fruitPixels as real else 0.0
  }

  /** The redness ratio of a window, counted on the red and on the fruit mask. */
  function WindowRatio(red: Mask, fruit: Mask, win: Window): real
    requires Fits(red, win) && Fits(fruit, win)
  {
    Ratio(CountWindow(red, win), CountWindow(fruit, win))
  }

  /**
   * The ratio stays within [0, 1] when the red pixels are no more than
   * the fruit pixels.
   */
  lemma RatioAtMostOne(redPixels: nat, fruitPixels: nat)
    requires redPixels <= fruitPixels
    ensures Ratio(redPixels, fruitPixels) <= 1.0
  {
  }

  /**
   * The ripeness test `ratio >= 0.5` read on the pixel counts: ripe exactly
   * when the box has fruit pixels and twice its red pixels cover them.
   */
  lemma RipeIffTwiceRedCoversFruit(redPixels: nat, fruitPixels: nat)
    ensures Ratio(redPixels, fruitPixels) >= RIPENESS_THRESHOLD <==> fruitPixels > 0 && 2 * redPixels >= fruitPixels
  {
    if fruitPixels > 0 {
      var r, f := Ratio(redPixels, fruitPixels), fruitPixels as real;
      assert r * f == redPixels as real;
      if r >= 0.5 {
        assert r * f >= 0.5 * f;
      } else {
        assert r * f < 0.5 * f;
      }
    }
  }

  /** Physical width: the pixel width times the millimetres-per-pixel scale. */
  function WidthMm(widthPx: int, scale: real): real
  {
    widthPx as real * scale
  }

  /** A larger scale never gives a smaller physical width for the same pixel width. */
  lemma WidthMmMonotoneInScale(widthPx: nat, s1: real, s2: real)
    requires s1 <= s2
    ensures WidthMm(widthPx, s1) <= WidthMm(widthPx, s2)
  {
    assert widthPx as real * (s2 - s1) >= 0.0;
  }

  /**
   * `min(1.0, max(0.0, x))`: x cut to the unit interval, left alone when it
   * already lies there.
   */
  function Clamp01(x: real): (r: real)
    ensures 0.0 <= r <= 1.0
    ensures 0.0 <= x <= 1.0 ==> r == x
    ensures x < 0.0 ==> r == 0.0
    ensures x > 1.0 ==> r == 1.0
  {
    var lower := if 0.0 > x then 0.0 else x;
    if 1.0 < lower then 1.0 else lower
  }

  lemma Clamp01Monotone(a: real, b: real)
    requires a <= b
    ensures Clamp01(a) <= Clamp01(b)
  {
  }

  /**
   * The size confidence of Algorith.C: the linear ramp from the expected
   * minimum to the expected maximum width, clamped to [0, 1].
   */
  function LinearSizeConfidence(widthMm: real): (r: real)
    ensures 0.0 <= r <= 1.0
    ensures widthMm <= EXPECTED_MIN_MM ==> r == 0.0
    ensures widthMm >= EXPECTED_MAX_MM ==> r == 1.0
    ensures EXPECTED_MIN_MM <= widthMm <= EXPECTED_MAX_MM ==> r * (EXPECTED_MAX_MM - EXPECTED_MIN_MM) == widthMm - EXPECTED_MIN_MM
  {
    Clamp01((widthMm - EXPECTED_MIN_MM) / (EXPECTED_MAX_MM - EXPECTED_MIN_MM))
  }

  /** The linear size confidence never decreases as the width grows. */
  lemma LinearSizeConfidenceMonotone(a: real, b: real)
    requires a <= b
    ensures LinearSizeConfidence(a) <= LinearSizeConfidence(b)
  {
    Clamp01Monotone((a - EXPECTED_MIN_MM) / (EXPECTED_MAX_MM - EXPECTED_MIN_MM),
                    (b - EXPECTED_MIN_MM) / (EXPECTED_MAX_MM - EXPECTED_MIN_MM));
  }

  /**
   * The size confidence of raspberry_detector.py: below the expected
   * minimum it rises from 0 at width 0, inside the expected range it ramps
   * from 0 to 1, and above the expected maximum it decays back to 0 at
   * twice the maximum; the result is clamped to [0, 1].
   */
  function SizeConfidence(widthMm: real): (r: real)
    ensures 0.0 <= r <= 1.0
    ensures 0.0 <= widthMm < EXPECTED_MIN_MM ==> r * EXPECTED_MIN_MM == widthMm
    ensures EXPECTED_MIN_MM <= widthMm <= EXPECTED_MAX_MM ==> r * (EXPECTED_MAX_MM - EXPECTED_MIN_MM) == widthMm - EXPECTED_MIN_MM
    ensures EXPECTED_MAX_MM < widthMm ==> (1.0 - r) * EXPECTED_MAX_MM == (if widthMm >= 2.0 * EXPECTED_MAX_MM then EXPECTED_MAX_MM else widthMm - EXPECTED_MAX_MM)
  {
    var raw :=
      if widthMm < EXPECTED_MIN_MM then widthMm / EXPECTED_MIN_MM
      else if widthMm > EXPECTED_MAX_MM then 1.0 - Min(1.0, (widthMm - EXPECTED_MAX_MM) / EXPECTED_MAX_MM)
      else (widthMm - EXPECTED_MIN_MM) / (EXPECTED_MAX_MM - EXPECTED_MIN_MM);
    Clamp01(raw)
  }

  function Min(a: real, b: real): real
  {
    if a <= b then a else b
  }

  /** Exactly at the expected minimum the in-range branch gives 0. */
  lemma SizeConfidenceZeroAtMinimum()
    ensures SizeConfidence(EXPECTED_MIN_MM) == 0.0
  {
  }

  /** From twice the expected maximum on, the decay has reached 0. */
  lemma SizeConfidenceVanishesFromTwiceMaximum(widthMm: real)
    requires widthMm >= 2.0 * EXPECTED_MAX_MM
    ensures SizeConfidence(widthMm) == 0.0
  {
  }

  /** Full confidence is reached at the expected maximum and nowhere else. */
  lemma SizeConfidenceFullOnlyAtMaximum(widthMm: real)
    ensures SizeConfidence(widthMm) == 1.0 <==> widthMm == EXPECTED_MAX_MM
  {
  }

  /**
   * The Python variant is not monotone: it drops from nearly 1 just below
   * the expected minimum to 0 at the minimum.
   */
  lemma SizeConfidenceDropsAtMinimum()
    ensures SizeConfidence(9.5) == 0.95 && SizeConfidence(EXPECTED_MIN_MM) == 0.0
  {
  }

  /**
   * The two size formulas agree exactly on non-positive widths and on the
   * expected range, and nowhere else.
   */
  lemma SizeVariantsAgreeIff(widthMm: real)
    ensures SizeConfidence(widthMm) == LinearSizeConfidence(widthMm)
        <==> widthMm <= 0.0 || EXPECTED_MIN_MM <= widthMm <= EXPECTED_MAX_MM
  {
  }
}
