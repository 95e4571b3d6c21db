/**
 * The candidate-selection rule shared by both implementations: among the
 * contours, in the order the contour tracer returns them, the winner is
 * the first one whose bounding-box width is strictly greater than every
 * earlier width and at least every later one; a contour only wins with a
 * positive width.
 */
module Selection {
  import opened Geometry

  /** Index k holds the first contour of greatest positive width. */
  predicate IsFirstWidest(contours: seq<Rect>, k: int)
  {
    0 <= k < |contours| && contours[k].w > 0 &&
    (forall j :: 0 <= j < |contours| ==> contours[j].w <= contours[k].w) &&
    (forall j :: 0 <= j < k ==> contours[j].w < contours[k].w)
  }

  /** No contour has a positive width (in particular, there is no contour). */
  predicate NoPositiveWidth(contours: seq<Rect>)
  {
    forall j :: 0 <= j < |contours| ==> contours[j].w <= 0
  }

  /** The tie-break makes the winner unique. */
  lemma FirstWidestUnique(contours: seq<Rect>, k1: int, k2: int)
    requires IsFirstWidest(contours, k1) && IsFirstWidest(contours, k2)
    ensures k1 == k2
  {
  }

  /**
   * A winner exists exactly when some contour has a positive width; the
   * winner is then the first contour attaining the greatest width.
   */
  lemma {:induction false} FirstWidestExists(contours: seq<Rect>)
    ensures (exists k :: IsFirstWidest(contours, k)) <==> !NoPositiveWidth(contours)
  {
    if !NoPositiveWidth(contours) {
      var k := WidestIndex(contours);
      assert IsFirstWidest(contours, k);
    }
  }

  /** Index of the first contour of greatest width, scanning from the front. */
  function WidestIndex(contours: seq<Rect>): (k: nat)
    requires |contours| > 0
    ensures k < |contours|
    ensures forall j :: 0 <= j < |contours| ==> contours[j].w <= contours[k].w
    ensures forall j :: 0 <= j < k ==> contours[j].w < contours[k].w
  {
    if |contours| == 1 then 0
    else
      var k := WidestIndex(contours[..|contours| - 1]);
      if contours[|contours| - 1].w > contours[k].w then |contours| - 1 else k
  }
}
