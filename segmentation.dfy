/**
 * Colour segmentation of an HSV image into binary masks, in OpenCV's
 * 8-bit convention: hue in [0, 180], saturation and value in [0, 255].
 * Both implementations use the same thresholds (Algorith.C lines 30-37,
 * raspberry_detector.py lines 24-31) and the same combination rules:
 * red is the union of two inclusive ranges, because red hues wrap around
 * hue 0, and the fruit region is the complement of the green background.
 * A mask pixel is 255 when it belongs to the set and 0 otherwise.
 */
module Segmentation {
  import opened Masks

  datatype Hsv = Hsv(h: int, s: int, v: int)

  /** A pair of per-channel inclusive bounds (a CvScalar / np.array pair). */
  datatype HsvRange = HsvRange(low: Hsv, high: Hsv)

  const RED_RANGE_1 := HsvRange(Hsv(0, 70, 50), Hsv(10, 255, 255))
  const RED_RANGE_2 := HsvRange(Hsv(170, 70, 50), Hsv(180, 255, 255))
  const GREEN_RANGE := HsvRange(Hsv(35, 40, 40), Hsv(85, 255, 255))

  /** The per-pixel test of cvInRangeS / cv2.inRange: every channel within its bounds. */
  predicate InRange(p: Hsv, r: HsvRange)
  {
    r.low.h <= p.h <= r.high.h && r.low.s <= p.s <= r.high.s && r.low.v <= p.v <= r.high.v
  }

  predicate IsRed(p: Hsv)
  {
    InRange(p, RED_RANGE_1) || InRange(p, RED_RANGE_2)
  }

  predicate IsGreen(p: Hsv)
  {
    InRange(p, GREEN_RANGE)
  }

  /** A mask holds only the two values 0 and 255. */
  predicate IsBinary(m: Mask)
  {
    forall i, j :: 0 <= i < |m| && 0 <= j < |m[i]| ==> m[i][j] == 0 || m[i][j] == 255
  }

  /** cvInRangeS / cv2.inRange over a whole image. */
  function InRangeMask(img: seq<seq<Hsv>>, r: HsvRange): (m: Mask)
  {
    seq(|img|, i requires 0 <= i < |img| =>
      seq(|img[i]|, j requires 0 <= j < |img[i]| => if InRange(img[i][j], r) then 255 else 0))
  }

  /** Bitwise OR of two samples, as cvOr / cv2.bitwise_or compute it. */
  function BitOr(a: Byte, b: Byte): Byte
  {
    ((a as bv8) | (b as bv8)) as int
  }

  /** Bitwise NOT of a sample, as cvNot / cv2.bitwise_not compute it. */
  function BitNot(a: Byte): Byte
  {
    ((a as bv8) ^ 0xFF) as int
  }

  function OrMask(a: Mask, b: Mask): (m: Mask)
    requires SameShape(a, b)
  {
    seq(|a|, i requires 0 <= i < |a| =>
      seq(|a[i]|, j requires 0 <= j < |a[i]| => BitOr(a[i][j], b[i][j])))
  }

  function NotMask(a: Mask): (m: Mask)
  {
    seq(|a|, i requires 0 <= i < |a| =>
      seq(|a[i]|, j requires 0 <= j < |a[i]| => BitNot(a[i][j])))
  }

  /** A set bit survives OR; OR of two clear samples is clear. */
  lemma BitOrNonzero(a: Byte, b: Byte)
    ensures BitOr(a, b) != 0 <==> a != 0 || b != 0
  {
    assert (a as bv8 | b as bv8 == 0) <==> (a as bv8 == 0 && b as bv8 == 0);
  }

  /** NOT swaps the two mask values 0 and 255. */
  lemma BitNotBinary(a: Byte)
    requires a == 0 || a == 255
    ensures BitNot(a) == 255 - a
  {
  }

  /**
   * The red mask: cvOr / cv2.bitwise_or of the two red-range masks. A pixel
   * is set exactly when its HSV triple lies in one of the two red ranges.
   */
  function RedMask(img: seq<seq<Hsv>>): (m: Mask)
    ensures SameShape(m, img) && IsBinary(m)
    ensures forall i, j :: 0 <= i < |img| && 0 <= j < |img[i]| ==> (m[i][j] != 0 <==> IsRed(img[i][j]))
    ensures Rectangular(img) ==> Rectangular(m) && Width(m) == Width(img)
  {
    var m1, m2 := InRangeMask(img, RED_RANGE_1), InRangeMask(img, RED_RANGE_2);
    var m := OrMask(m1, m2);
    assert forall i, j :: 0 <= i < |img| && 0 <= j < |img[i]| ==>
      (m[i][j] != 0 <==> IsRed(img[i][j])) && (m[i][j] == 0 || m[i][j] == 255) by {
      forall i, j | 0 <= i < |img| && 0 <= j < |img[i]|
        ensures m[i][j] != 0 <==> IsRed(img[i][j])
        ensures m[i][j] == 0 || m[i][j] == 255
      {
        BitOrNonzero(m1[i][j], m2[i][j]);
        assert BitOr(0, 0) == 0 && BitOr(255, 0) == 255 && BitOr(0, 255) == 255 && BitOr(255, 255) == 255;
      }
    }
    m
  }

  function GreenMask(img: seq<seq<Hsv>>): (m: Mask)
    ensures SameShape(m, img) && IsBinary(m)
    ensures forall i, j :: 0 <= i < |img| && 0 <= j < |img[i]| ==> (m[i][j] != 0 <==> IsGreen(img[i][j]))
  {
    InRangeMask(img, GREEN_RANGE)
  }

  /**
   * The fruit mask: cvNot / cv2.bitwise_not of the green mask. A pixel is
   * set exactly when it is not classified as green background.
   */
  function FruitMask(img: seq<seq<Hsv>>): (m: Mask)
    ensures SameShape(m, img) && IsBinary(m)
    ensures forall i, j :: 0 <= i < |img| && 0 <= j < |img[i]| ==> (m[i][j] != 0 <==> !IsGreen(img[i][j]))
    ensures Rectangular(img) ==> Rectangular(m) && Width(m) == Width(img)
  {
    var g := GreenMask(img);
    var m := NotMask(g);
    assert forall i, j :: 0 <= i < |img| && 0 <= j < |img[i]| ==> m[i][j] == 255 - g[i][j] by {
      forall i, j | 0 <= i < |img| && 0 <= j < |img[i]|
        ensures m[i][j] == 255 - g[i][j]
      {
        BitNotBinary(g[i][j]);
      }
    }
    m
  }

  /**
   * The red hues ([0, 10] and [170, 180]) and the green hues ([35, 85]) do
   * not meet, so before noise suppression every red pixel is a fruit pixel.
   */
  lemma RedPixelsAreFruitPixels(img: seq<seq<Hsv>>, i: int, j: int)
    requires 0 <= i < |img| && 0 <= j < |img[i]|
    requires RedMask(img)[i][j] != 0
    ensures FruitMask(img)[i][j] != 0
  {
  }

  /**
   * No single inclusive range describes the red set: any range that agrees
   * with it on the deep reds at hue 0 and hue 180 also admits hue 90, which
   * is not red. This is why two sub-ranges are combined.
   */
  lemma RedNeedsTwoRanges(r: HsvRange)
    ensures exists p :: InRange(p, r) != IsRed(p)
  {
    var low, high, mid := Hsv(0, 255, 255), Hsv(180, 255, 255), Hsv(90, 255, 255);
    assert IsRed(low) && IsRed(high) && !IsRed(mid);
    if !InRange(low, r) {
      assert InRange(low, r) != IsRed(low);
    } else if !InRange(high, r) {
      assert InRange(high, r) != IsRed(high);
    } else {
      assert InRange(mid, r) != IsRed(mid);
    }
  }
}
