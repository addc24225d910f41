/** Axis-aligned boxes in normalised image coordinates and the two box
    measures the rules engine uses: clamped area and intersection over union.
    Coordinates are exact reals; the y axis grows downward, as in an image. */
module Geometry {

  /** A bounding box `[x1, y1, x2, y2]`. Nothing forces `x1 <= x2` or
      `y1 <= y2`: a reversed box simply has no area. */
  datatype Box = Box(x1: real, y1: real, x2: real, y2: real)

  /** A vertex of the court polygon, or a track centre, `[x, y]`. */
  datatype Point = Point(x: real, y: real)

  predicate WellFormed(b: Box) {
    b.x1 <= b.x2 && b.y1 <= b.y2
  }

  /** `Math.max(0, d)`. */
  function Clamp(d: real): (r: real)
    ensures r >= 0.0 && r >= d
    ensures r == d || r == 0.0
  {
    if d > 0.0 then d else 0.0
  }

  function Max(a: real, b: real): real { if a >= b then a else b }

  function Min(a: real, b: real): real { if a <= b then a else b }

  lemma MulMono(a: real, b: real, c: real, d: real)
    requires 0.0 <= a <= c && 0.0 <= b <= d
    ensures 0.0 <= a * b <= c * d
  {
    assert a * b <= c * b;
    assert c * b <= c * d;
  }

  /** Clamped area of a box: never negative, and zero exactly when the box
      has no extent along one of its axes. */
  function Area(b: Box): (r: real)
    ensures r >= 0.0
    ensures r == 0.0 <==> b.x2 <= b.x1 || b.y2 <= b.y1
    ensures WellFormed(b) ==> r == (b.x2 - b.x1) * (b.y2 - b.y1)
  {
    var w := Clamp(b.x2 - b.x1);
    var h := Clamp(b.y2 - b.y1);
    MulMono(0.0, 0.0, w, h);
    w * h
  }

  /** The two boxes share an interior point: along each axis both spans are
      proper and each starts before the other ends. */
  predicate Overlapping(a: Box, b: Box) {
    && a.x1 < a.x2 && b.x1 < b.x2 && a.x1 < b.x2 && b.x1 < a.x2
    && a.y1 < a.y2 && b.y1 < b.y2 && a.y1 < b.y2 && b.y1 < a.y2
  }

  /** Area of the common part of two boxes, as `bboxIou` computes it. It never
      exceeds the clamped area of either box, and it is positive exactly when
      the boxes overlap. */
  function Intersection(a: Box, b: Box): (r: real)
    ensures 0.0 <= r <= Area(a) && r <= Area(b)
    ensures r > 0.0 <==> Overlapping(a, b)
  {
    var w := Clamp(Min(a.x2, b.x2) - Max(a.x1, b.x1));
    var h := Clamp(Min(a.y2, b.y2) - Max(a.y1, b.y1));
    MulMono(w, h, Clamp(a.x2 - a.x1), Clamp(a.y2 - a.y1));
    MulMono(w, h, Clamp(b.x2 - b.x1), Clamp(b.y2 - b.y1));
    assert w * h > 0.0 <==> w > 0.0 && h > 0.0 by {
      if w > 0.0 && h > 0.0 {
        assert w * h > 0.0;
      }
    }
    w * h
  }

  /** Intersection over union of two boxes, 0 when the union area is 0. */
  function Iou(a: Box, b: Box): (r: real)
    ensures 0.0 <= r <= 1.0
    ensures r > 0.0 <==> Overlapping(a, b)
    ensures Area(a) + Area(b) - Intersection(a, b) == 0.0 ==> r == 0.0
  {
    var inter := Intersection(a, b);
    var union := Area(a) + Area(b) - inter;
    if union == 0.0 then 0.0 else DivAtMostOne(inter, union); inter / union
  }

  lemma DivAtMostOne(n: real, d: real)
    requires 0.0 <= n <= d && d > 0.0
    ensures 0.0 <= n / d <= 1.0
  {
    assert n / d * d == n;
  }

  /** A box with positive area has IoU 1 with itself. */
  lemma IouSelf(a: Box)
    requires Area(a) > 0.0
    ensures Iou(a, a) == 1.0
  {
    assert Intersection(a, a) == Area(a);
  }

  /** The union of two boxes is empty only when both are degenerate. */
  lemma UnionZeroIffDegenerate(a: Box, b: Box)
    ensures Area(a) + Area(b) - Intersection(a, b) == 0.0 <==> Area(a) == 0.0 && Area(b) == 0.0
  {
  }

  /** IoU does not depend on the order of its arguments. */
  lemma IouSymmetric(a: Box, b: Box)
    ensures Iou(a, b) == Iou(b, a)
  {
    assert Min(a.x2, b.x2) == Min(b.x2, a.x2) && Max(a.x1, b.x1) == Max(b.x1, a.x1);
    assert Min(a.y2, b.y2) == Min(b.y2, a.y2) && Max(a.y1, b.y1) == Max(b.y1, a.y1);
    assert Intersection(a, b) == Intersection(b, a);
  }

  /** Boxes separated along either axis have IoU 0. */
  lemma IouDisjoint(a: Box, b: Box)
    requires a.x2 <= b.x1 || b.x2 <= a.x1 || a.y2 <= b.y1 || b.y2 <= a.y1
    ensures Iou(a, b) == 0.0
  {
  }
}
