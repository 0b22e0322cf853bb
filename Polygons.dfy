// The cell sequences DrawRectangle, DrawTriangle and DrawQuad submit, in
// submission order, before clipping.
module Polygons {
  import opened Geometry
  import opened Pixels
  import opened Lines
  import opened Barycentric

  /** The four corners DrawRectangle derives from min/max of the two given
      corners: (xMin,yMin), (xMax,yMin), (xMax,yMax), (xMin,yMax). */
  function Corners(r: Rectangle): seq<Point>
  {
    var xMax := Max(r.p0.x, r.p1.x);
    var xMin := Min(r.p0.x, r.p1.x);
    var yMax := Max(r.p0.y, r.p1.y);
    var yMin := Min(r.p0.y, r.p1.y);
    [Point(xMin, yMin), Point(xMax, yMin), Point(xMax, yMax), Point(xMin, yMax)]
  }

  /** The closed loop of four lines corner 1 -> 2 -> 3 -> 4 -> 1. */
  function RectEdges(r: Rectangle): seq<Point>
  {
    var c := Corners(r);
    LineCells(Line(c[0], c[1])) + LineCells(Line(c[1], c[2])) +
    LineCells(Line(c[2], c[3])) + LineCells(Line(c[3], c[0]))
  }

  /** The strict interior, row by row. */
  function RectFill(r: Rectangle): seq<Point>
  {
    var c := Corners(r);
    GridCells(c[0].x + 1, c[2].x, c[0].y + 1, c[2].y)
  }

  function RectCells(r: Rectangle, fill: bool): seq<Point>
  {
    RectEdges(r) + (if fill then RectFill(r) else [])
  }

  /** The rectangle's cells written out from its corners: the four edges in
      order, then the strict interior [xMin+1, xMax) x [yMin+1, yMax). */
  lemma RectCellsPieces(r: Rectangle, fill: bool, xMin: int, xMax: int, yMin: int, yMax: int)
    requires xMax == Max(r.p0.x, r.p1.x) && xMin == Min(r.p0.x, r.p1.x)
    requires yMax == Max(r.p0.y, r.p1.y) && yMin == Min(r.p0.y, r.p1.y)
    ensures RectCells(r, fill) ==
      LineCells(Line(Point(xMin, yMin), Point(xMax, yMin))) + LineCells(Line(Point(xMax, yMin), Point(xMax, yMax))) +
      LineCells(Line(Point(xMax, yMax), Point(xMin, yMax))) + LineCells(Line(Point(xMin, yMax), Point(xMin, yMin))) +
      (if fill then GridCells(xMin + 1, xMax, yMin + 1, yMax) else [])
  {
    var c := Corners(r);
    assert c[0] == Point(xMin, yMin) && c[1] == Point(xMax, yMin);
    assert c[2] == Point(xMax, yMax) && c[3] == Point(xMin, yMax);
    assert RectFill(r) == GridCells(xMin + 1, xMax, yMin + 1, yMax);
  }

  /** What is drawn depends only on the min/max of the corners: swapping the
      two corners, or using the other diagonal, draws the same sequence. */
  lemma RectCornerOrder(a: Point, b: Point, fill: bool)
    ensures RectCells(Rectangle(a, b), fill) == RectCells(Rectangle(b, a), fill)
    ensures RectCells(Rectangle(a, b), fill) == RectCells(Rectangle(Point(a.x, b.y), Point(b.x, a.y)), fill)
  {
    assert Corners(Rectangle(a, b)) == Corners(Rectangle(b, a));
    assert Corners(Rectangle(a, b)) == Corners(Rectangle(Point(a.x, b.y), Point(b.x, a.y)));
  }

  /** The fill covers exactly the cells strictly inside the rectangle, in
      row-major order. */
  lemma RectFillExact(r: Rectangle, p: Point)
    ensures var c := Corners(r);
      p in RectFill(r) <==> c[0].x < p.x < c[2].x && c[0].y < p.y < c[2].y
  {
    var c := Corners(r);
    GridCellsMembership(c[0].x + 1, c[2].x, c[0].y + 1, c[2].y, p);
  }

  /** The filled rectangle (2,2)-(5,5) fills (3,3), (4,3), (3,4), (4,4), in that order. */
  lemma RectFillExample()
    ensures RectFill(Rectangle(Point(2, 2), Point(5, 5))) ==
      [Point(3, 3), Point(4, 3), Point(3, 4), Point(4, 4)]
  {
    assert Row(3, 5, 3) == [Point(3, 3), Point(4, 3)];
    assert Row(3, 5, 4) == [Point(3, 4), Point(4, 4)];
  }

  /** A line submits exactly the points of its walk (the endpoints twice). */
  lemma LineCellsPoints(l: Line, p: Point)
    ensures p in LineCells(l) <==> p in Path(l)
  {
    PathShape(l);
    InteriorMembers(Path(l), l, p);
  }

  /** An axis-parallel line covers exactly the cells between its endpoints. */
  lemma AxisLinePoints(l: Line, p: Point)
    requires l.p0.x == l.p1.x || l.p0.y == l.p1.y
    ensures p in LineCells(l) <==> Covers(LineBoundingBox(l), p)
  {
    LineCellsPoints(l, p);
    PathShape(l);
    if Covers(LineBoundingBox(l), p) {
      if l.p0.y == l.p1.y {
        HorizontalCovered(l, p);
      } else {
        VerticalCovered(l, p);
      }
    }
  }

  lemma HorizontalCovered(l: Line, p: Point)
    requires l.p0.y == l.p1.y && Covers(LineBoundingBox(l), p)
    ensures p in Path(l)
  {
    HorizontalPathFrom(l, 0);
    var k := Abs(p.x - l.p0.x);
    assert At(l, k, 0) == p by {
      if l.p0.x < l.p1.x { assert Sx(l) * k == p.x - l.p0.x; } else { assert Sx(l) * k == p.x - l.p0.x; }
    }
    assert Path(l)[k] == p;
  }

  lemma VerticalCovered(l: Line, p: Point)
    requires l.p0.x == l.p1.x && Covers(LineBoundingBox(l), p)
    ensures p in Path(l)
  {
    VerticalPathFrom(l, 0);
    var k := Abs(p.y - l.p0.y);
    assert At(l, 0, k) == p by {
      if l.p0.y < l.p1.y { assert Sy(l) * k == p.y - l.p0.y; } else { assert Sy(l) * k == p.y - l.p0.y; }
    }
    assert Path(l)[k] == p;
  }

  /** The four edge lines cover exactly the border of the box spanned by the
      corners, whatever order the corners were given in. */
  lemma RectEdgesExact(r: Rectangle, p: Point)
    ensures var c := Corners(r);
      p in RectEdges(r) <==>
        c[0].x <= p.x <= c[2].x && c[0].y <= p.y <= c[2].y &&
        (p.x == c[0].x || p.x == c[2].x || p.y == c[0].y || p.y == c[2].y)
  {
    var c := Corners(r);
    AxisLinePoints(Line(c[0], c[1]), p);
    AxisLinePoints(Line(c[1], c[2]), p);
    AxisLinePoints(Line(c[2], c[3]), p);
    AxisLinePoints(Line(c[3], c[0]), p);
  }

  /** The fill box of DrawTriangle: xMin <= x < xMax, yMin <= y < yMax (half-open). */
  function TriangleFill(a: Point, b: Point, c: Point): seq<Point>
  {
    var box := TriangleBoundingBox(Triangle(a, b, c));
    InsideOf(GridCells(box.p0.x, box.p1.x, box.p1.y, box.p0.y), a, b, c)
  }

  /** The points of `pts` that pass the containment test, in order. */
  function InsideOf(pts: seq<Point>, a: Point, b: Point, c: Point): (inside: seq<Point>)
    ensures forall p :: p in inside <==> p in pts && IsInsideTriangle(a, b, c, p)
  {
    if pts == [] then []
    else if IsInsideTriangle(a, b, c, pts[0]) then [pts[0]] + InsideOf(pts[1..], a, b, c)
    else InsideOf(pts[1..], a, b, c)
  }

  lemma {:induction false} InsideOfAppend(s: seq<Point>, t: seq<Point>, a: Point, b: Point, c: Point)
    ensures InsideOf(s + t, a, b, c) == InsideOf(s, a, b, c) + InsideOf(t, a, b, c)
  {
    if s == [] {
      assert s + t == t;
    } else {
      assert (s + t)[1..] == s[1..] + t;
      InsideOfAppend(s[1..], t, a, b, c);
    }
  }

  /** The triangle's fill scans exactly the box from its least to its greatest
      coordinates, half-open at the top. */
  lemma TriangleFillBox(a: Point, b: Point, c: Point, xMin: int, xMax: int, yMin: int, yMax: int)
    requires xMax == Max(a.x, Max(b.x, c.x)) && xMin == Min(a.x, Min(b.x, c.x))
    requires yMax == Max(a.y, Max(b.y, c.y)) && yMin == Min(a.y, Min(b.y, c.y))
    ensures TriangleFill(a, b, c) == InsideOf(GridCells(xMin, xMax, yMin, yMax), a, b, c)
  {
  }

  /** Testing one more cell keeps it exactly when it passes the containment test. */
  lemma InsideOfSnoc(pts: seq<Point>, p: Point, a: Point, b: Point, c: Point)
    ensures InsideOf(pts + [p], a, b, c) == InsideOf(pts, a, b, c) + if IsInsideTriangle(a, b, c, p) then [p] else []
  {
    InsideOfAppend(pts, [p], a, b, c);
    assert [p][1..] == [];
  }

  /** What one more containment test and MakeRequest of cell p adds to a queue
      that so far holds the emitted inside cells of pts. */
  lemma QueueInsideSnoc(done: seq<Request>, before: seq<Request>, after: seq<Request>, pts: seq<Point>, p: Point,
                        a: Point, b: Point, c: Point, s: Style, width: int, height: int)
    requires before == done + Emit(InsideOf(pts, a, b, c), s, width, height)
    requires after == if IsInsideTriangle(a, b, c, p) then before + Clip([RequestAt(p, s)], width, height) else before
    ensures after == done + Emit(InsideOf(pts + [p], a, b, c), s, width, height)
  {
    InsideOfSnoc(pts, p, a, b, c);
    ClipSingle(RequestAt(p, s), width, height);
    if IsInsideTriangle(a, b, c, p) {
      EmitSnoc(InsideOf(pts, a, b, c), p, s, width, height);
    } else {
      assert InsideOf(pts, a, b, c) + [] == InsideOf(pts, a, b, c);
    }
  }

  /** A cell is filled exactly when it lies in the half-open bounding box and
      passes the containment test; so the maximal column and row of the box are
      never filled, and a degenerate triangle fills nothing. */
  lemma TriangleFillExact(a: Point, b: Point, c: Point, p: Point)
    ensures var box := TriangleBoundingBox(Triangle(a, b, c));
      p in TriangleFill(a, b, c) <==>
        box.p0.x <= p.x < box.p1.x && box.p1.y <= p.y < box.p0.y && IsInsideTriangle(a, b, c, p)
  {
    var box := TriangleBoundingBox(Triangle(a, b, c));
    GridCellsMembership(box.p0.x, box.p1.x, box.p1.y, box.p0.y, p);
  }

  lemma DegenerateFillsNothing(a: Point, b: Point, c: Point)
    requires Denominator(a, b, c) == 0
    ensures TriangleFill(a, b, c) == []
  {
    var fill := TriangleFill(a, b, c);
    if fill != [] {
      assert fill[0] in fill;
      DegenerateContainsNothing(a, b, c, fill[0]);
    }
  }

  /** DrawTriangle fills first (when asked) and then draws p0->p1, p1->p2, p2->p0. */
  function TriangleCells(t: Triangle, fill: bool): seq<Point>
  {
    (if fill then TriangleFill(t.p0, t.p1, t.p2) else []) +
    LineCells(Line(t.p0, t.p1)) + LineCells(Line(t.p1, t.p2)) + LineCells(Line(t.p2, t.p0))
  }

  /** DrawQuad draws p0->p1->p2->p3->p0 first and then (when asked) fills the
      triangles (p0, p1, p2) and (p2, p3, p0), each over its own box. */
  function QuadCells(q: Quad, fill: bool): seq<Point>
  {
    LineCells(Line(q.p0, q.p1)) + LineCells(Line(q.p1, q.p2)) +
    LineCells(Line(q.p2, q.p3)) + LineCells(Line(q.p3, q.p0)) +
    (if fill then TriangleFill(q.p0, q.p1, q.p2) + TriangleFill(q.p2, q.p3, q.p0) else [])
  }

  /** A cell is in a quad's fill exactly when it lies in the half-open box of
      (p0, p1, p2) and passes that triangle's test, or lies in the half-open box
      of (p2, p3, p0) and passes that one's; no convexity or winding check is made. */
  lemma QuadFillExact(q: Quad, p: Point)
    ensures var b0 := TriangleBoundingBox(Triangle(q.p0, q.p1, q.p2));
      var b1 := TriangleBoundingBox(Triangle(q.p2, q.p3, q.p0));
      p in TriangleFill(q.p0, q.p1, q.p2) + TriangleFill(q.p2, q.p3, q.p0) <==>
        (b0.p0.x <= p.x < b0.p1.x && b0.p1.y <= p.y < b0.p0.y && IsInsideTriangle(q.p0, q.p1, q.p2, p)) ||
        (b1.p0.x <= p.x < b1.p1.x && b1.p1.y <= p.y < b1.p0.y && IsInsideTriangle(q.p2, q.p3, q.p0, p))
    ensures p in TriangleFill(q.p2, q.p3, q.p0) ==> IsInsideTriangle(q.p0, q.p2, q.p3, p)
  {
    TriangleFillExact(q.p0, q.p1, q.p2, p);
    TriangleFillExact(q.p2, q.p3, q.p0, p);
    if p in TriangleFill(q.p2, q.p3, q.p0) {
      RotationInvariant(q.p0, q.p2, q.p3, p);
      RotationInvariant(q.p2, q.p3, q.p0, p);
    }
  }
}
