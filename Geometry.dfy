// Integer points, their componentwise arithmetic, and the axis-aligned
// bounding boxes of the shape values (line, triangle, quad, circle).
// Coordinates are unbounded integers; the source's 32-bit wrap-around is not modelled.
module Geometry {

  datatype Point = Point(x: int, y: int)

  /** A rectangle given by two opposite corners. Bounding boxes put the
      (xMin, yMax) corner in p0 and the (xMax, yMin) corner in p1. */
  datatype Rectangle = Rectangle(p0: Point, p1: Point)

  datatype Line = Line(p0: Point, p1: Point)

  datatype Triangle = Triangle(p0: Point, p1: Point, p2: Point)

  datatype Quad = Quad(p0: Point, p1: Point, p2: Point, p3: Point)

  datatype Circle = Circle(center: Point, radius: int)

  function Abs(a: int): nat { if a < 0 then -a else a }

  function Min(a: int, b: int): int { if a <= b then a else b }

  function Max(a: int, b: int): int { if a >= b then a else b }

  /** Integer division that rounds toward zero, as C#'s `/` on `int` does
      (Dafny's own `/` is Euclidean). The remainder is smaller than the divisor,
      has the sign of the dividend, and the product never exceeds the dividend
      in magnitude. */
  function TruncDiv(a: int, b: int): (q: int)
    requires b != 0
    ensures Abs(a - q * b) < Abs(b)
    ensures a - q * b == 0 || (a - q * b > 0 <==> a > 0)
    ensures Abs(q * b) <= Abs(a)
  {
    var n, d := Abs(a), Abs(b);
    var m := n / d;
    NaturalDivision(n, d);
    var q := if (a >= 0) == (b > 0) then m else -m;
    assert q * b == (if a >= 0 then m * d else -(m * d)) by {
      if b > 0 { assert d == b; } else { assert d == -b; }
    }
    q
  }

  lemma NaturalDivision(n: nat, d: nat)
    requires d > 0
    ensures 0 <= n - (n / d) * d < d
    ensures 0 <= (n / d) * d <= n
  {
  }

  /** Rounding toward zero is symmetric in the sign of the dividend, which
      Euclidean division is not. */
  lemma {:induction false} TruncDivOdd(a: int, b: int)
    requires b != 0
    ensures TruncDiv(-a, b) == -TruncDiv(a, b)
  {
    var q := TruncDiv(a, b);
    var r := a - q * b;
    NegMul(q, b);
    assert -a - (-q) * b == -r;
    assert Abs(-r) == Abs(r);
    TruncDivUnique(-a, b, -q);
  }

  /** The first two properties in TruncDiv's contract determine the quotient. */
  lemma TruncDivUnique(a: int, b: int, q: int)
    requires b != 0
    requires Abs(a - q * b) < Abs(b)
    requires a - q * b == 0 || (a - q * b > 0 <==> a > 0)
    ensures q == TruncDiv(a, b)
  {
    var t := TruncDiv(a, b);
    var r, s := a - q * b, a - t * b;
    SubMul(t, q, b);
    assert r - s == (t - q) * b;
    CloseRemainders(r, s, Abs(b), a > 0);
    MulSmall(t - q, b);
  }

  /** Two remainders below the divisor in size, with the same sign rule,
      differ by less than the divisor. */
  lemma CloseRemainders(r: int, s: int, d: int, positive: bool)
    requires Abs(r) < d && Abs(s) < d
    requires r == 0 || (r > 0 <==> positive)
    requires s == 0 || (s > 0 <==> positive)
    ensures Abs(r - s) < d
  {
  }

  lemma NegMul(q: int, b: int)
    ensures (-q) * b == -(q * b)
  {
  }

  lemma SubMul(t: int, q: int, b: int)
    ensures (t - q) * b == t * b - q * b
  {
  }

  lemma MulSmall(k: int, b: int)
    requires b != 0 && Abs(k * b) < Abs(b)
    ensures k == 0
  {
    if k >= 1 {
      MulMonotone(k, b);
    } else if k <= -1 {
      assert k * b == (-k) * (-b);
      MulMonotone(-k, -b);
    }
  }

  lemma MulMonotone(k: int, b: int)
    requires k >= 1
    ensures Abs(k * b) >= Abs(b)
  {
    if b >= 0 {
      assert k * b == (k - 1) * b + b;
      assert (k - 1) * b >= 0;
    } else {
      assert k * (-b) == (k - 1) * (-b) + (-b);
      assert (k - 1) * (-b) >= 0;
    }
  }

  lemma TruncDivExample()
    ensures TruncDiv(-7, 2) == -3 && -7 / 2 == -4
  {
  }

  /** `p0 + p1` */
  function Add(p0: Point, p1: Point): Point
  {
    Point(p0.x + p1.x, p0.y + p1.y)
  }

  /** `p0 - p1` */
  function Sub(p0: Point, p1: Point): Point
  {
    Point(p0.x - p1.x, p0.y - p1.y)
  }

  /** Subtraction undoes addition, and addition is commutative. */
  lemma AddSubInverse(p0: Point, p1: Point)
    ensures Sub(Add(p0, p1), p1) == p0 && Add(Sub(p0, p1), p1) == p0
    ensures Add(p0, p1) == Add(p1, p0)
  {
  }

  /** `p0 * p1`, componentwise */
  function Mul(p0: Point, p1: Point): (r: Point)
    ensures p1.x != 0 && p1.y != 0 ==> Div(r, p1) == p0
  {
    var r := Point(p0.x * p1.x, p0.y * p1.y);
    if p1.x != 0 && p1.y != 0 then
      TruncDivUnique(r.x, p1.x, p0.x);
      TruncDivUnique(r.y, p1.y, p0.y);
      r
    else r
  }

  /** `p0 / p1`, componentwise, rounding toward zero. A zero component of the
      divisor raises DivideByZeroException in the source, which it does not catch. */
  function Div(p0: Point, p1: Point): (r: Point)
    requires p1.x != 0 && p1.y != 0
    ensures Abs(p0.x - r.x * p1.x) < Abs(p1.x) && Abs(p0.y - r.y * p1.y) < Abs(p1.y)
    ensures Abs(r.x * p1.x) <= Abs(p0.x) && Abs(r.y * p1.y) <= Abs(p0.y)
  {
    Point(TruncDiv(p0.x, p1.x), TruncDiv(p0.y, p1.y))
  }

  /** The componentwise average, each coordinate rounded toward zero. */
  function GetMidpoint(p0: Point, p1: Point): (r: Point)
    ensures Min(p0.x, p1.x) <= r.x <= Max(p0.x, p1.x)
    ensures Min(p0.y, p1.y) <= r.y <= Max(p0.y, p1.y)
    ensures Abs(2 * r.x) <= Abs(p0.x + p1.x) && Abs(p0.x + p1.x) - Abs(2 * r.x) <= 1
    ensures Abs(2 * r.y) <= Abs(p0.y + p1.y) && Abs(p0.y + p1.y) - Abs(2 * r.y) <= 1
    ensures Abs(p0.x + p1.x - 2 * r.x) <= 1 && Abs(p0.y + p1.y - 2 * r.y) <= 1
    ensures p0.x + p1.x - 2 * r.x == 0 || (p0.x + p1.x - 2 * r.x > 0 <==> p0.x + p1.x > 0)
    ensures p0.y + p1.y - 2 * r.y == 0 || (p0.y + p1.y - 2 * r.y > 0 <==> p0.y + p1.y > 0)
  {
    Point(TruncDiv(p0.x + p1.x, 2), TruncDiv(p0.y + p1.y, 2))
  }

  /** The remainder bound and sign clauses of GetMidpoint leave one candidate:
      a point meeting them is the midpoint. */
  lemma MidpointUnique(p0: Point, p1: Point, m: Point)
    requires Abs(p0.x + p1.x - 2 * m.x) <= 1 && Abs(p0.y + p1.y - 2 * m.y) <= 1
    requires p0.x + p1.x - 2 * m.x == 0 || (p0.x + p1.x - 2 * m.x > 0 <==> p0.x + p1.x > 0)
    requires p0.y + p1.y - 2 * m.y == 0 || (p0.y + p1.y - 2 * m.y > 0 <==> p0.y + p1.y > 0)
    ensures m == GetMidpoint(p0, p1)
  {
    assert p0.x + p1.x - m.x * 2 == p0.x + p1.x - 2 * m.x;
    assert p0.y + p1.y - m.y * 2 == p0.y + p1.y - 2 * m.y;
    TruncDivUnique(p0.x + p1.x, 2, m.x);
    TruncDivUnique(p0.y + p1.y, 2, m.y);
  }

  /** An odd sum across zero: (-1 + 4) / 2 is 1 in C#, not -1 or 2. */
  lemma MidpointStraddlingZero()
    ensures GetMidpoint(Point(-1, 0), Point(4, 0)) == Point(1, 0)
  {
    MidpointUnique(Point(-1, 0), Point(4, 0), Point(1, 0));
  }

  lemma MidpointSymmetric(p0: Point, p1: Point)
    ensures GetMidpoint(p0, p1) == GetMidpoint(p1, p0)
  {
    assert p0.x + p1.x == p1.x + p0.x && p0.y + p1.y == p1.y + p0.y;
  }

  lemma MidpointOfSelf(p: Point)
    ensures GetMidpoint(p, p) == p
  {
    TruncDivUnique(p.x + p.x, 2, p.x);
    TruncDivUnique(p.y + p.y, 2, p.y);
  }

  /** Whether a bounding box (in the (xMin, yMax)-(xMax, yMin) layout) covers p. */
  predicate Covers(box: Rectangle, p: Point)
  {
    box.p0.x <= p.x <= box.p1.x && box.p1.y <= p.y <= box.p0.y
  }

  /** Each side of `box` passes through one of the given x or y coordinates:
      no smaller box covers the points they come from. */
  predicate Tight(box: Rectangle, xs: seq<int>, ys: seq<int>)
  {
    box.p0.x in xs && box.p1.x in xs && box.p0.y in ys && box.p1.y in ys
  }

  function LineBoundingBox(l: Line): (box: Rectangle)
    ensures Covers(box, l.p0) && Covers(box, l.p1)
    ensures Tight(box, [l.p0.x, l.p1.x], [l.p0.y, l.p1.y])
  {
    var xMax := Max(l.p0.x, l.p1.x);
    var xMin := Min(l.p0.x, l.p1.x);
    var yMax := Max(l.p0.y, l.p1.y);
    var yMin := Min(l.p0.y, l.p1.y);
    Rectangle(Point(xMin, yMax), Point(xMax, yMin))
  }

  function TriangleBoundingBox(t: Triangle): (box: Rectangle)
    ensures Covers(box, t.p0) && Covers(box, t.p1) && Covers(box, t.p2)
    ensures Tight(box, [t.p0.x, t.p1.x, t.p2.x], [t.p0.y, t.p1.y, t.p2.y])
  {
    var xMax := Max(t.p0.x, Max(t.p1.x, t.p2.x));
    var xMin := Min(t.p0.x, Min(t.p1.x, t.p2.x));
    var yMax := Max(t.p0.y, Max(t.p1.y, t.p2.y));
    var yMin := Min(t.p0.y, Min(t.p1.y, t.p2.y));
    Rectangle(Point(xMin, yMax), Point(xMax, yMin))
  }

  function QuadBoundingBox(q: Quad): (box: Rectangle)
    ensures Covers(box, q.p0) && Covers(box, q.p1) && Covers(box, q.p2) && Covers(box, q.p3)
    ensures Tight(box, [q.p0.x, q.p1.x, q.p2.x, q.p3.x], [q.p0.y, q.p1.y, q.p2.y, q.p3.y])
  {
    var xMax := Max(q.p0.x, Max(q.p1.x, Max(q.p2.x, q.p3.x)));
    var xMin := Min(q.p0.x, Min(q.p1.x, Min(q.p2.x, q.p3.x)));
    var yMax := Max(q.p0.y, Max(q.p1.y, Max(q.p2.y, q.p3.y)));
    var yMin := Min(q.p0.y, Min(q.p1.y, Min(q.p2.y, q.p3.y)));
    Rectangle(Point(xMin, yMax), Point(xMax, yMin))
  }

  /** The box `center ± radius`: centred on the circle, 2*radius wide and high,
      and covering the four extreme points of a circle whose radius is not negative. */
  function CircleBoundingBox(c: Circle): (box: Rectangle)
    ensures GetMidpoint(box.p0, box.p1) == c.center
    ensures box.p1.x - box.p0.x == 2 * c.radius && box.p0.y - box.p1.y == 2 * c.radius
    ensures c.radius >= 0 ==>
      Covers(box, Point(c.center.x + c.radius, c.center.y)) &&
      Covers(box, Point(c.center.x - c.radius, c.center.y)) &&
      Covers(box, Point(c.center.x, c.center.y + c.radius)) &&
      Covers(box, Point(c.center.x, c.center.y - c.radius))
  {
    var xMax := c.center.x + c.radius;
    var xMin := c.center.x - c.radius;
    var yMax := c.center.y + c.radius;
    var yMin := c.center.y - c.radius;
    var box := Rectangle(Point(xMin, yMax), Point(xMax, yMin));
    MidpointOfSelf(c.center);
    assert GetMidpoint(box.p0, box.p1) == GetMidpoint(c.center, c.center);
    box
  }
}
