// The midpoint circle walk of DrawCircle. A loop state is (x, y, d) where d
// is the source's decisionOver2; each iteration plots (or fills) from (x, y)
// and then moves y up by one and x down by at most one.
module Circles {
  import opened Geometry
  import opened Pixels

  datatype CircleState = CircleState(x: int, y: int, d: int)

  function Start(radius: int): CircleState
  {
    CircleState(radius, 0, 1 - radius)
  }

  /** The update after plotting: y advances; x steps inward when d > 0. */
  function Next(s: CircleState): (t: CircleState)
    ensures t.y == s.y + 1 && (t.x == s.x || t.x == s.x - 1)
  {
    var y := s.y + 1;
    if s.d <= 0 then CircleState(s.x, y, s.d + 2 * y + 1)
    else CircleState(s.x - 1, y, s.d + 2 * (y - (s.x - 1)) + 1)
  }

  /** The states the loop plots from, while y <= x. The loop ends because
      x - y shrinks by at least one each iteration. */
  function StatesFrom(s: CircleState): (states: seq<CircleState>)
    decreases s.x - s.y + 1
  {
    if s.y > s.x then [] else [s] + StatesFrom(Next(s))
  }

  /** The k-th state has y = s.y + k and y <= x <= s.x: one state per row
      up to the diagonal, with x never growing. */
  lemma {:induction false} StatesFromShape(s: CircleState)
    ensures forall k :: 0 <= k < |StatesFrom(s)| ==>
      StatesFrom(s)[k].y == s.y + k && StatesFrom(s)[k].y <= StatesFrom(s)[k].x <= s.x
    decreases s.x - s.y + 1
  {
    if s.y <= s.x {
      StatesFromShape(Next(s));
      assert forall k :: 1 <= k < |StatesFrom(s)| ==> StatesFrom(s)[k] == StatesFrom(Next(s))[k - 1];
    }
  }

  function States(radius: int): seq<CircleState>
  {
    StatesFrom(Start(radius))
  }

  /** A negative radius plots nothing; radius 0 plots once, from (0, 0). */
  lemma NegativeRadius(radius: int)
    ensures radius < 0 ==> States(radius) == []
    ensures radius >= 0 ==> |States(radius)| >= 1 && States(radius)[0] == Start(radius)
  {
  }

  /** Consecutive states: y goes up by one, x stays or goes down by one. */
  lemma {:induction false} StatesStep(s: CircleState, k: int)
    requires 0 <= k < |StatesFrom(s)| - 1
    ensures StatesFrom(s)[k + 1] == Next(StatesFrom(s)[k])
    decreases s.x - s.y + 1
  {
    if k > 0 {
      StatesStep(Next(s), k - 1);
    }
  }

  /** The decision variable tracks the midpoint test exactly:
      d = (y + 1)^2 + x^2 - x - r^2. */
  predicate Tracks(radius: int, s: CircleState)
  {
    s.d == (s.y + 1) * (s.y + 1) + s.x * s.x - s.x - radius * radius
  }

  /** A plotted (x, y) is within half a cell of the true circle:
      r^2 - x <= x^2 + y^2 <= r^2 + x. */
  predicate NearCircle(radius: int, s: CircleState)
  {
    radius * radius - s.x <= s.x * s.x + s.y * s.y <= radius * radius + s.x
  }

  lemma NextTracks(radius: int, s: CircleState)
    requires Tracks(radius, s) && 0 <= s.y <= s.x
    requires NearCircle(radius, s)
    ensures Tracks(radius, Next(s))
    ensures Next(s).y <= Next(s).x ==> NearCircle(radius, Next(s))
  {
    var x, y, r2 := s.x, s.y, radius * radius;
    var xx, yy, y1, y2, xm := x * x, y * y, (y + 1) * (y + 1), (y + 2) * (y + 2), (x - 1) * (x - 1);
    assert y1 == yy + 2 * y + 1 && y2 == y1 + 2 * y + 3 && xm == xx - 2 * x + 1;
    MidpointStep(x, y, s.d, r2, xx, yy, y1, y2, xm);
  }

  /** The midpoint update in linear terms, the squares x^2, y^2, (y+1)^2,
      (y+2)^2 and (x-1)^2 given as the numbers xx, yy, y1, y2 and xm. */
  lemma MidpointStep(x: int, y: int, d: int, r2: int, xx: int, yy: int, y1: int, y2: int, xm: int)
    requires y1 == yy + 2 * y + 1 && y2 == y1 + 2 * y + 3 && xm == xx - 2 * x + 1
    requires d == y1 + xx - x - r2 && r2 - x <= xx + yy <= r2 + x && 0 <= y <= x
    ensures d <= 0 ==> d + 2 * (y + 1) + 1 == y2 + xx - x - r2 &&
                       (y + 1 <= x ==> r2 - x <= xx + y1 <= r2 + x)
    ensures d > 0 ==> d + 2 * (y + 1 - (x - 1)) + 1 == y2 + xm - (x - 1) - r2 &&
                      (y + 1 <= x - 1 ==> r2 - (x - 1) <= xm + y1 <= r2 + (x - 1))
  {
  }

  /** Every state the walk plots from satisfies the midpoint accuracy bound. */
  lemma {:induction false} StatesFromNearCircle(radius: int, s: CircleState)
    requires Tracks(radius, s) && 0 <= s.y
    requires s.y <= s.x ==> NearCircle(radius, s)
    ensures forall k :: 0 <= k < |StatesFrom(s)| ==> NearCircle(radius, StatesFrom(s)[k])
    decreases s.x - s.y + 1
  {
    if s.y <= s.x {
      NextTracks(radius, s);
      StatesFromNearCircle(radius, Next(s));
    }
  }

  lemma StatesNearCircle(radius: int)
    ensures forall k :: 0 <= k < |States(radius)| ==> NearCircle(radius, States(radius)[k])
  {
    if radius >= 0 {
      assert radius * radius - radius <= radius * radius;
    }
    StatesFromNearCircle(radius, Start(radius));
  }

  /** The four reflections of (a, b) across the center's row and column. */
  function Reflections(c: Point, a: int, b: int): seq<Point>
  {
    [Point(c.x + a, c.y + b), Point(c.x - a, c.y + b), Point(c.x + a, c.y - b), Point(c.x - a, c.y - b)]
  }

  /** PlotCirclePoints: the eight reflections of (x, y), in the source's order,
      which is the four of (x, y) and then the four of (y, x). */
  function Octants(c: Point, x: int, y: int): seq<Point>
  {
    Reflections(c, x, y) + Reflections(c, y, x)
  }

  /** FillCircleLine's first i - (c.x - x) iterations: for each column from
      c.x - x, the cell in row c.y + y and then the cell in row c.y - y. */
  function SpanUpTo(c: Point, x: int, y: int, i: int): (span: seq<Point>)
    ensures |span| == if i <= c.x - x then 0 else 2 * (i - (c.x - x))
    decreases i - (c.x - x)
  {
    if i <= c.x - x then []
    else SpanUpTo(c, x, y, i - 1) + [Point(i - 1, c.y + y), Point(i - 1, c.y - y)]
  }

  /** FillCircleLine: columns c.x - x .. c.x + x inclusive. */
  function Span(c: Point, x: int, y: int): seq<Point>
  {
    SpanUpTo(c, x, y, c.x + x + 1)
  }

  /** A span covers exactly the two rows c.y +- y between columns c.x - x and c.x + x. */
  lemma {:induction false} SpanUpToExact(c: Point, x: int, y: int, i: int, p: Point)
    ensures p in SpanUpTo(c, x, y, i) <==> c.x - x <= p.x < i && (p.y == c.y + y || p.y == c.y - y)
    decreases i - (c.x - x)
  {
    if i > c.x - x {
      SpanUpToExact(c, x, y, i - 1, p);
    }
  }

  /** What one iteration submits: the eight octant points, or the spans of
      the two symmetric row pairs when filling. */
  function Block(c: Point, x: int, y: int, fill: bool): seq<Point>
  {
    if fill then Span(c, x, y) + Span(c, y, x) else Octants(c, x, y)
  }

  function Blocks(c: Point, states: seq<CircleState>, fill: bool): seq<Point>
  {
    if states == [] then [] else Block(c, states[0].x, states[0].y, fill) + Blocks(c, states[1..], fill)
  }

  /** One iteration of DrawCircle's loop submits the block of its state and
      leaves the blocks of the states after it. */
  lemma BlocksStep(c: Point, s: CircleState, fill: bool)
    requires s.y <= s.x
    ensures Blocks(c, StatesFrom(s), fill) == Block(c, s.x, s.y, fill) + Blocks(c, StatesFrom(Next(s)), fill)
  {
    assert StatesFrom(s)[1..] == StatesFrom(Next(s));
  }

  /** A column more of a span: its cell in row c.y + y, then in row c.y - y. */
  lemma SpanUpToStep(c: Point, x: int, y: int, i: int)
    requires c.x - x <= i
    ensures SpanUpTo(c, x, y, i + 1) == SpanUpTo(c, x, y, i) + [Point(i, c.y + y)] + [Point(i, c.y - y)]
  {
  }

  /** The fill loop ends at column Max(c.x - x, c.x + x + 1) and so covers the span. */
  lemma SpanScan(c: Point, x: int, y: int)
    ensures SpanUpTo(c, x, y, c.x - x) == [] && SpanUpTo(c, x, y, Max(c.x - x, c.x + x + 1)) == Span(c, x, y)
  {
  }

  function CircleCells(cir: Circle, fill: bool): seq<Point>
  {
    Blocks(cir.center, States(cir.radius), fill)
  }

  /** Unfilled, the k-th iteration submits exactly the eight octant points of
      the k-th state, in the fixed order. */
  lemma {:induction false} OutlineBlocks(c: Point, states: seq<CircleState>, k: int, j: int)
    requires 0 <= k < |states| && 0 <= j < 8
    ensures |Blocks(c, states, false)| == 8 * |states|
    ensures Blocks(c, states, false)[8 * k + j] == Octants(c, states[k].x, states[k].y)[j]
  {
    if k > 0 {
      OutlineBlocks(c, states[1..], k - 1, j);
    } else if |states| > 1 {
      OutlineBlocks(c, states[1..], 0, j);
    }
  }

  /** Every cell the outline submits lies on one of the eight reflections of a
      plotted state, and so within half a cell of the circle. */
  lemma OutlineNearCircle(cir: Circle, p: Point)
    requires p in CircleCells(cir, false)
    ensures exists k :: 0 <= k < |States(cir.radius)| &&
                        p in Octants(cir.center, States(cir.radius)[k].x, States(cir.radius)[k].y) &&
                        NearCircle(cir.radius, States(cir.radius)[k])
  {
    var states := States(cir.radius);
    var cells := CircleCells(cir, false);
    var i :| 0 <= i < |cells| && cells[i] == p;
    OutlineBlocks(cir.center, states, 0, 0);
    assert i / 8 < |states| && i == 8 * (i / 8) + i % 8;
    OutlineBlocks(cir.center, states, i / 8, i % 8);
    StatesNearCircle(cir.radius);
    assert p in Octants(cir.center, states[i / 8].x, states[i / 8].y);
  }

  /** DrawCircle as written paints with priority 0: every request it queues
      has zIndex 0, so a caller's nonzero zIndex is never honoured. */
  lemma DrawCircleDropsDepth(cir: Circle, fill: bool, character: string, color: Color, zIndex: int, width: int, height: int)
    requires zIndex != 0
    ensures forall r :: r in Emit(CircleCells(cir, fill), Style(character, color, 0), width, height) ==> r.zIndex != zIndex
  {
    EmitStyle(CircleCells(cir, fill), Style(character, color, 0), width, height);
  }

  /** A concrete case: the radius-0 outline at (1, 1) on a 3 x 3 grid queues
      (1, 1) at priority 0, whatever zIndex DrawCircle was given. */
  lemma DrawCircleDepthExample()
    ensures Request(1, 1, "o", White, 0) in Emit(CircleCells(Circle(Point(1, 1), 0), false), Style("o", White, 0), 3, 3)
  {
    var c, s := Point(1, 1), Style("o", White, 0);
    var states := States(0);
    NegativeRadius(0);
    OutlineBlocks(c, states, 0, 0);
    var cells := CircleCells(Circle(c, 0), false);
    assert cells[0] == Point(1, 1);
    assert Paint(cells, s)[0] == Request(1, 1, "o", White, 0);
    ClipMembers(Paint(cells, s), 3, 3, Request(1, 1, "o", White, 0));
  }

  /** With the zIndex passed on, every queued request carries the caller's priority. */
  lemma DrawCircleAtDepthKeepsDepth(cir: Circle, fill: bool, character: string, color: Color, zIndex: int,
                                    width: int, height: int)
    ensures forall r :: r in Emit(CircleCells(cir, fill), Style(character, color, zIndex), width, height) ==>
      r.zIndex == zIndex && r.character == character && r.color == color
  {
    EmitStyle(CircleCells(cir, fill), Style(character, color, zIndex), width, height);
  }
}
