/** The court-containment test: a ray-casting parity test over a closed
    polygon, as `pointInPolygon` performs it. Vertex `i` is joined to vertex
    `i - 1`, and vertex 0 to the last vertex, so a polygon of `n` vertices has
    `n` edges and edge `i` is visited `i`-th. */
module Polygon {
  import opened Geometry

  /** The constant added to an edge's vertical extent before dividing. */
  const Epsilon: real := 0.000000001

  /** Index of the vertex that edge `i` runs back to. */
  function PrevIndex(n: nat, i: nat): (j: nat)
    requires i < n
    ensures j < n
    ensures i == 0 ==> j == n - 1
    ensures i > 0 ==> j + 1 == i
  {
    if i == 0 then n - 1 else i - 1
  }

  /** Whether the edge from `vi` to `vj` straddles the horizontal line through
      `p` and meets it to the right of `p`. The JavaScript divides by
      `yj - yi + 1e-9`; when that is exactly 0 the quotient is `+Infinity` for a
      positive numerator (a crossing) and `-Infinity` or `NaN` otherwise (no
      crossing), which the zero branch states. */
  predicate EdgeCrosses(p: Point, vi: Point, vj: Point)
    ensures EdgeCrosses(p, vi, vj) ==> Min(vi.y, vj.y) <= p.y < Max(vi.y, vj.y)
    ensures vi.y == vj.y ==> !EdgeCrosses(p, vi, vj)
  {
    && ((vi.y > p.y) != (vj.y > p.y))
    && var num := (vj.x - vi.x) * (p.y - vi.y);
       var den := vj.y - vi.y + Epsilon;
       if den == 0.0 then num > 0.0 else p.x < num / den + vi.x
  }

  /** A vertical edge, whose extent is not the one value the constant
      cancels, crosses exactly when its vertical span holds `p` and it lies to
      the right of `p`. */
  lemma VerticalEdgeCrossing(p: Point, vi: Point, vj: Point)
    requires vi.x == vj.x && vj.y - vi.y + Epsilon != 0.0
    ensures EdgeCrosses(p, vi, vj) <==> Min(vi.y, vj.y) <= p.y < Max(vi.y, vj.y) && p.x < vi.x
  {
    var num := (vj.x - vi.x) * (p.y - vi.y);
    var den := vj.y - vi.y + Epsilon;
    assert num == 0.0;
    assert num / den == 0.0;
    assert ((vi.y > p.y) != (vj.y > p.y)) <==> Min(vi.y, vj.y) <= p.y < Max(vi.y, vj.y);
  }

  /** Whether edge `i` of `poly` crosses the ray from `p`. */
  predicate Crosses(p: Point, poly: seq<Point>, i: nat)
    requires i < |poly|
  {
    EdgeCrosses(p, poly[i], poly[PrevIndex(|poly|, i)])
  }

  /** Number of crossing edges among edges `0 .. k - 1`: at most `k`, and 0
      exactly when none of them crosses. */
  function CrossingsBefore(p: Point, poly: seq<Point>, k: nat): (c: nat)
    requires k <= |poly|
    ensures c <= k
    ensures c == 0 <==> forall i :: 0 <= i < k ==> !Crosses(p, poly, i)
  {
    if k == 0 then 0
    else CrossingsBefore(p, poly, k - 1) + (if Crosses(p, poly, k - 1) then 1 else 0)
  }

  /** Number of edges of the closed polygon that cross the ray from `p`. */
  function Crossings(p: Point, poly: seq<Point>): nat {
    CrossingsBefore(p, poly, |poly|)
  }

  /** The parity rule: `p` is inside when an odd number of edges cross. A
      point can only be inside when the ray from it meets some edge. */
  predicate PointInPolygon(p: Point, poly: seq<Point>)
    ensures PointInPolygon(p, poly) ==> exists i :: 0 <= i < |poly| && Crosses(p, poly, i)
  {
    Crossings(p, poly) % 2 == 1
  }

  lemma ParityStep(c: nat)
    ensures (c + 1) % 2 == 1 <==> c % 2 != 1
  {
  }

  /** The loop of `pointInPolygon`, toggling `inside` on each crossing edge,
      computes the parity rule. */
  method PointInPolygonScan(p: Point, poly: seq<Point>) returns (inside: bool)
    ensures inside <==> PointInPolygon(p, poly)
  {
    inside := false;
    var i: int := 0;
    var j: int := |poly| - 1;
    while i < |poly|
      invariant 0 <= i <= |poly|
      invariant i < |poly| ==> j == PrevIndex(|poly|, i)
      invariant inside <==> CrossingsBefore(p, poly, i) % 2 == 1
    {
      var vi := poly[i];
      var vj := poly[j];
      ghost var before := CrossingsBefore(p, poly, i);
      assert CrossingsBefore(p, poly, i + 1) == before + (if EdgeCrosses(p, vi, vj) then 1 else 0);
      if EdgeCrosses(p, vi, vj) {
        ParityStep(before);
        inside := !inside;
      }
      j := i;
      i := i + 1;
    }
  }

  /** An empty polygon, or a single vertex, contains nothing. */
  lemma FewVerticesOutside(p: Point, poly: seq<Point>)
    requires |poly| <= 1
    ensures !PointInPolygon(p, poly)
  {
    if |poly| == 1 {
      assert !Crosses(p, poly, 0);
    }
  }

  /** A point whose y is at least every vertex's y, or less than every
      vertex's y, meets no edge, so it is outside. */
  lemma {:induction false} OutsideVerticalSpan(p: Point, poly: seq<Point>, k: nat)
    requires k <= |poly|
    requires (forall i :: 0 <= i < |poly| ==> poly[i].y > p.y)
          || (forall i :: 0 <= i < |poly| ==> poly[i].y <= p.y)
    ensures CrossingsBefore(p, poly, k) == 0
    ensures k == |poly| ==> !PointInPolygon(p, poly)
  {
    if k > 0 {
      OutsideVerticalSpan(p, poly, k - 1);
      assert !Crosses(p, poly, k - 1);
    }
  }

  /** The polygon with its first vertex moved to the end. */
  function Rotate(poly: seq<Point>): (r: seq<Point>)
    requires |poly| > 0
    ensures |r| == |poly|
    ensures forall i :: 0 <= i < |poly| - 1 ==> r[i] == poly[i + 1]
    ensures r[|poly| - 1] == poly[0]
  {
    poly[1..] + [poly[0]]
  }

  /** Edge `i` of the rotated polygon is edge `i + 1` of the original, so
      counting the first `k` rotated edges counts original edges `1 .. k`. */
  lemma {:induction false} RotatedPrefix(p: Point, poly: seq<Point>, k: nat)
    requires |poly| >= 2 && k < |poly|
    ensures CrossingsBefore(p, Rotate(poly), k) + (if Crosses(p, poly, 0) then 1 else 0)
            == CrossingsBefore(p, poly, k + 1)
  {
    var q := Rotate(poly);
    var n := |poly|;
    if k > 0 {
      RotatedPrefix(p, poly, k - 1);
      var m := k - 1;
      if m == 0 {
        assert q[0] == poly[1] && q[PrevIndex(n, 0)] == poly[0];
      } else {
        assert q[m] == poly[m + 1] && q[PrevIndex(n, m)] == poly[m];
      }
      assert Crosses(p, q, m) == Crosses(p, poly, m + 1);
    }
  }

  /** Containment does not depend on which vertex the polygon lists first. */
  lemma RotationInvariant(p: Point, poly: seq<Point>)
    requires |poly| > 0
    ensures Crossings(p, Rotate(poly)) == Crossings(p, poly)
    ensures PointInPolygon(p, Rotate(poly)) <==> PointInPolygon(p, poly)
  {
    var q := Rotate(poly);
    var n := |poly|;
    if n >= 2 {
      RotatedPrefix(p, poly, n - 1);
      assert q[n - 1] == poly[0] && q[PrevIndex(n, n - 1)] == poly[n - 1];
      assert Crosses(p, q, n - 1) == Crosses(p, poly, 0);
    } else {
      assert q == poly;
    }
  }

  /** The polygon listed from vertex `k` onward, wrapping round to vertex 0. */
  function RotateBy(poly: seq<Point>, k: nat): (r: seq<Point>)
    requires k <= |poly|
    ensures |r| == |poly|
  {
    poly[k..] + poly[..k]
  }

  /** Containment does not depend on which vertex the polygon lists first:
      any cyclic rotation keeps the crossing count. */
  lemma {:induction false} CyclicRotationInvariant(p: Point, poly: seq<Point>, k: nat)
    requires k <= |poly|
    ensures Crossings(p, RotateBy(poly, k)) == Crossings(p, poly)
    ensures PointInPolygon(p, RotateBy(poly, k)) <==> PointInPolygon(p, poly)
  {
    if k == 0 {
      assert RotateBy(poly, 0) == poly;
    } else {
      CyclicRotationInvariant(p, poly, k - 1);
      RotateByStep(poly, k);
      RotationInvariant(p, RotateBy(poly, k - 1));
    }
  }

  /** Rotating by `k` is rotating by `k - 1` and then by one more vertex. */
  lemma RotateByStep(poly: seq<Point>, k: nat)
    requires 0 < k <= |poly|
    ensures Rotate(RotateBy(poly, k - 1)) == RotateBy(poly, k)
  {
    var q := RotateBy(poly, k - 1);
    assert q[0] == poly[k - 1];
    assert q[1..] == poly[k..] + poly[..k - 1];
    assert poly[..k - 1] + [poly[k - 1]] == poly[..k];
  }
}
