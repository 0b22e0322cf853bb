// The barycentric containment test used by the triangle and quad fills.
// The source computes the coordinates in double precision; here they are exact
// rationals, so points that sit within rounding distance of an edge may be
// classified differently than the floating-point code would.
module Barycentric {
  import opened Geometry

  /** Twice the signed area of the triangle (p0, p1, p2); zero exactly when
      the three points are collinear. */
  function Denominator(p0: Point, p1: Point, p2: Point): int
  {
    (p1.y - p2.y) * (p0.x - p2.x) + (p2.x - p1.x) * (p0.y - p2.y)
  }

  function AlphaNumerator(p0: Point, p1: Point, p2: Point, q: Point): int
  {
    (p1.y - p2.y) * (q.x - p2.x) + (p2.x - p1.x) * (q.y - p2.y)
  }

  function BetaNumerator(p0: Point, p1: Point, p2: Point, q: Point): int
  {
    (p2.y - p0.y) * (q.x - p2.x) + (p0.x - p2.x) * (q.y - p2.y)
  }

  /** The barycentric coordinates [alpha, beta, gamma] of q with respect to the
      triangle (p0, p1, p2), or the sentinel [-1, -1, -1] for a degenerate
      triangle. For a proper triangle they sum to one and q is the weighted
      sum of the vertices. */
  function CalculateBarycentric(p0: Point, p1: Point, p2: Point, q: Point): (r: seq<real>)
    ensures |r| == 3
    ensures Denominator(p0, p1, p2) == 0 ==> r == [-1.0, -1.0, -1.0]
    ensures Denominator(p0, p1, p2) != 0 ==>
      r[0] + r[1] + r[2] == 1.0 &&
      r[0] * p0.x as real + r[1] * p1.x as real + r[2] * p2.x as real == q.x as real &&
      r[0] * p0.y as real + r[1] * p1.y as real + r[2] * p2.y as real == q.y as real
  {
    var d := Denominator(p0, p1, p2);
    if d == 0 then [-1.0, -1.0, -1.0]
    else
      var a := AlphaNumerator(p0, p1, p2, q);
      var b := BetaNumerator(p0, p1, p2, q);
      var alpha := a as real / d as real;
      var beta := b as real / d as real;
      var gamma := 1.0 - alpha - beta;
      Reconstruction(p0, p1, p2, q);
      WeightedSum(d as real, a as real, b as real, p0.x as real, p1.x as real, p2.x as real, q.x as real);
      WeightedSum(d as real, a as real, b as real, p0.y as real, p1.y as real, p2.y as real, q.y as real);
      [alpha, beta, gamma]
  }

  /** The integer identities behind the reconstruction property: the
      numerators weight the edge vectors (p0 - p2) and (p1 - p2) into d * (q - p2). */
  lemma Reconstruction(p0: Point, p1: Point, p2: Point, q: Point)
    ensures AlphaNumerator(p0, p1, p2, q) * (p0.x - p2.x) + BetaNumerator(p0, p1, p2, q) * (p1.x - p2.x)
         == Denominator(p0, p1, p2) * (q.x - p2.x)
    ensures AlphaNumerator(p0, p1, p2, q) * (p0.y - p2.y) + BetaNumerator(p0, p1, p2, q) * (p1.y - p2.y)
         == Denominator(p0, p1, p2) * (q.y - p2.y)
  {
    var ax, ay, bx, ey, ux, uy := p0.x - p2.x, p0.y - p2.y, p1.x - p2.x, p1.y - p2.y, q.x - p2.x, q.y - p2.y;
    assert Denominator(p0, p1, p2) == ey * ax - bx * ay;
    assert AlphaNumerator(p0, p1, p2, q) == ey * ux - bx * uy;
    assert BetaNumerator(p0, p1, p2, q) == ax * uy - ay * ux;
  }

  lemma WeightedSum(d: real, a: real, b: real, v0: real, v1: real, v2: real, u: real)
    requires d != 0.0
    requires a * (v0 - v2) + b * (v1 - v2) == d * (u - v2)
    ensures (a / d) * v0 + (b / d) * v1 + (1.0 - a / d - b / d) * v2 == u
  {
    calc {
      (a / d) * v0 + (b / d) * v1 + (1.0 - a / d - b / d) * v2;
      v2 + (a * (v0 - v2) + b * (v1 - v2)) / d;
      v2 + (d * (u - v2)) / d;
      u;
    }
  }

  /** Inside the triangle, edges included: all three coordinates are non-negative. */
  predicate IsInsideTriangle(p0: Point, p1: Point, p2: Point, q: Point)
  {
    var c := CalculateBarycentric(p0, p1, p2, q);
    c[0] >= 0.0 && c[1] >= 0.0 && c[2] >= 0.0
  }

  /** The same test in exact integer arithmetic, without division: the three
      numerators (the third being d - alpha - beta) all have the sign of d. */
  predicate InsideBySigns(p0: Point, p1: Point, p2: Point, q: Point)
  {
    var d := Denominator(p0, p1, p2);
    var a := AlphaNumerator(p0, p1, p2, q);
    var b := BetaNumerator(p0, p1, p2, q);
    (d > 0 && a >= 0 && b >= 0 && d - a - b >= 0) ||
    (d < 0 && a <= 0 && b <= 0 && d - a - b <= 0)
  }

  lemma InsideIffSigns(p0: Point, p1: Point, p2: Point, q: Point)
    ensures IsInsideTriangle(p0, p1, p2, q) <==> InsideBySigns(p0, p1, p2, q)
  {
    var d := Denominator(p0, p1, p2);
    if d != 0 {
      var a := AlphaNumerator(p0, p1, p2, q);
      var b := BetaNumerator(p0, p1, p2, q);
      var c := CalculateBarycentric(p0, p1, p2, q);
      assert c == [a as real / d as real, b as real / d as real, 1.0 - a as real / d as real - b as real / d as real];
      RatiosSigns(a, b, d);
    }
  }

  /** The three coordinates a/d, b/d and 1 - a/d - b/d are all non-negative
      exactly when a, b and d - a - b all have the sign of d. */
  lemma RatiosSigns(a: int, b: int, d: int)
    requires d != 0
    ensures var ra, rb := a as real / d as real, b as real / d as real;
      (ra >= 0.0 && rb >= 0.0 && 1.0 - ra - rb >= 0.0) <==>
      (d > 0 && a >= 0 && b >= 0 && d - a - b >= 0) || (d < 0 && a <= 0 && b <= 0 && d - a - b <= 0)
  {
    var g := d - a - b;
    var rd := d as real;
    assert g as real == rd - a as real - b as real;
    assert (rd - a as real - b as real) / rd == rd / rd - a as real / rd - b as real / rd;
    assert rd / rd == 1.0;
    RatioSign(a, d);
    RatioSign(b, d);
    RatioSign(g, d);
  }

  lemma RatioSign(n: int, d: int)
    requires d != 0
    ensures n as real / d as real >= 0.0 <==> (d > 0 && n >= 0) || (d < 0 && n <= 0)
  {
    var r := n as real / d as real;
    assert r * d as real == n as real;
  }

  /** A degenerate (collinear) triangle contains no point at all. */
  lemma DegenerateContainsNothing(p0: Point, p1: Point, p2: Point, q: Point)
    requires Denominator(p0, p1, p2) == 0
    ensures !IsInsideTriangle(p0, p1, p2, q)
  {
  }

  /** Every vertex of a proper triangle is inside it: at p0 the coordinates
      are (1, 0, 0), at p1 (0, 1, 0), at p2 (0, 0, 1). */
  lemma VerticesInside(p0: Point, p1: Point, p2: Point)
    requires Denominator(p0, p1, p2) != 0
    ensures CalculateBarycentric(p0, p1, p2, p0) == [1.0, 0.0, 0.0]
    ensures CalculateBarycentric(p0, p1, p2, p1) == [0.0, 1.0, 0.0]
    ensures CalculateBarycentric(p0, p1, p2, p2) == [0.0, 0.0, 1.0]
    ensures IsInsideTriangle(p0, p1, p2, p0)
    ensures IsInsideTriangle(p0, p1, p2, p1)
    ensures IsInsideTriangle(p0, p1, p2, p2)
  {
    var d := Denominator(p0, p1, p2);
    assert AlphaNumerator(p0, p1, p2, p0) == d;
    assert BetaNumerator(p0, p1, p2, p0) == 0;
    assert AlphaNumerator(p0, p1, p2, p1) == 0;
    assert BetaNumerator(p0, p1, p2, p1) == d;
    assert AlphaNumerator(p0, p1, p2, p2) == 0;
    assert BetaNumerator(p0, p1, p2, p2) == 0;
    assert d as real / d as real == 1.0;
    assert 0.0 / d as real == 0.0;
  }

  /** The test does not depend on which vertex is listed first: rotating the
      vertices rotates the coordinates. The quad's second fill triangle
      (p2, p3, p0) therefore tests the same region as (p0, p2, p3). */
  lemma RotationInvariant(p0: Point, p1: Point, p2: Point, q: Point)
    ensures IsInsideTriangle(p0, p1, p2, q) <==> IsInsideTriangle(p1, p2, p0, q)
  {
    RotatedNumerators(p0, p1, p2, q);
    InsideIffSigns(p0, p1, p2, q);
    InsideIffSigns(p1, p2, p0, q);
  }

  /** Rotating the vertices keeps the denominator and rotates the numerators
      (alpha, beta, d - alpha - beta). */
  lemma RotatedNumerators(p0: Point, p1: Point, p2: Point, q: Point)
    ensures Denominator(p1, p2, p0) == Denominator(p0, p1, p2)
    ensures AlphaNumerator(p1, p2, p0, q) == BetaNumerator(p0, p1, p2, q)
    ensures BetaNumerator(p1, p2, p0, q) ==
      Denominator(p0, p1, p2) - AlphaNumerator(p0, p1, p2, q) - BetaNumerator(p0, p1, p2, q)
  {
    var ax, ay, bx, ey, ux, uy := p0.x - p2.x, p0.y - p2.y, p1.x - p2.x, p1.y - p2.y, q.x - p2.x, q.y - p2.y;
    assert Denominator(p0, p1, p2) == ey * ax - bx * ay;
    assert AlphaNumerator(p0, p1, p2, q) == ey * ux - bx * uy;
    assert BetaNumerator(p0, p1, p2, q) == ax * uy - ay * ux;
    assert Denominator(p1, p2, p0) == -ay * (bx - ax) + ax * (ey - ay);
    assert AlphaNumerator(p1, p2, p0, q) == -ay * (ux - ax) + ax * (uy - ay);
    assert BetaNumerator(p1, p2, p0, q) == (ay - ey) * (ux - ax) + (bx - ax) * (uy - ay);
  }
}
