// Bresenham's line walk as DrawLine performs it, described by two counters:
// ix = |current.x - p0.x| and iy = |current.y - p0.y|. The error accumulator
// is then a function of the counters (Err), so a walk state is just (ix, iy).
module Lines {
  import opened Geometry
  import opened Pixels

  function Dx(l: Line): int { Abs(l.p1.x - l.p0.x) }

  function Dy(l: Line): int { Abs(l.p1.y - l.p0.y) }

  /** The x step: +1 toward a larger x, otherwise -1 (also when dx = 0). */
  function Sx(l: Line): int { if l.p0.x < l.p1.x then 1 else -1 }

  function Sy(l: Line): int { if l.p0.y < l.p1.y then 1 else -1 }

  /** The walk's position after ix steps in x and iy steps in y. */
  function At(l: Line, ix: int, iy: int): Point
  {
    Point(l.p0.x + Sx(l) * ix, l.p0.y + Sy(l) * iy)
  }

  /** The error accumulator after ix x-steps and iy y-steps: it starts at
      dx - dy, each x-step subtracts dy and each y-step adds dx. */
  function Err(l: Line, ix: int, iy: int): int
  {
    Dx(l) - Dy(l) - ix * Dy(l) + iy * Dx(l)
  }

  predicate Reachable(l: Line, ix: int, iy: int)
  {
    0 <= ix <= Dx(l) && 0 <= iy <= Dy(l)
  }

  predicate Done(l: Line, ix: int, iy: int)
  {
    ix == Dx(l) && iy == Dy(l)
  }

  /** The walk reaches p1 exactly when both counters are exhausted. */
  lemma AtEnd(l: Line, ix: int, iy: int)
    requires Reachable(l, ix, iy)
    ensures At(l, ix, iy) == l.p1 <==> Done(l, ix, iy)
    ensures At(l, ix, iy) == l.p0 <==> ix == 0 && iy == 0
  {
  }

  /** One iteration of the loop: with e2 = 2 * err, x advances when e2 > -dy and
      y advances when e2 < dx. From any unfinished reachable state at least one
      counter advances and neither overshoots. */
  function Step(l: Line, ix: int, iy: int): (next: (int, int))
    requires Reachable(l, ix, iy) && !Done(l, ix, iy)
    ensures Reachable(l, next.0, next.1)
    ensures next.0 - ix in {0, 1} && next.1 - iy in {0, 1} && next != (ix, iy)
  {
    var dx, dy := Dx(l), Dy(l);
    var e2 := 2 * Err(l, ix, iy);
    var nx := if e2 > -dy then ix + 1 else ix;
    var ny := if e2 < dx then iy + 1 else iy;
    StepStaysReachable(l, ix, iy);
    (nx, ny)
  }

  lemma StepStaysReachable(l: Line, ix: int, iy: int)
    requires Reachable(l, ix, iy) && !Done(l, ix, iy)
    ensures ix == Dx(l) ==> 2 * Err(l, ix, iy) <= -Dy(l) && 2 * Err(l, ix, iy) < Dx(l)
    ensures iy == Dy(l) ==> 2 * Err(l, ix, iy) >= Dx(l) && 2 * Err(l, ix, iy) > -Dy(l)
    ensures 2 * Err(l, ix, iy) > -Dy(l) || 2 * Err(l, ix, iy) < Dx(l)
  {
    var dx, dy := Dx(l), Dy(l);
    if ix == dx {
      assert iy < dy;
      assert Err(l, ix, iy) == dx * (1 + iy - dy) - dy;
      assert dx * (1 + iy - dy) <= 0 by { MulNonPositive(dx, 1 + iy - dy); }
    }
    if iy == dy {
      assert ix < dx;
      assert Err(l, ix, iy) == dx - dy + dy * (dx - ix);
      assert dy * (dx - ix) >= dy by { MulAtLeast(dy, dx - ix); }
    }
  }

  lemma MulNonPositive(a: int, b: int)
    requires a >= 0 && b <= 0
    ensures a * b <= 0
  {
    assert a * b == -(a * (-b));
  }

  lemma MulAtLeast(a: int, b: int)
    requires a >= 0 && b >= 1
    ensures a * b >= a
  {
    assert a * b == a * (b - 1) + a;
  }

  /** The points the walk visits from state (ix, iy) up to and including p1. */
  function PathFrom(l: Line, ix: int, iy: int): (path: seq<Point>)
    requires Reachable(l, ix, iy)
    ensures |path| >= 1 && path[0] == At(l, ix, iy)
    decreases Dx(l) - ix + Dy(l) - iy
  {
    if Done(l, ix, iy) then [At(l, ix, iy)]
    else
      var next := Step(l, ix, iy);
      [At(l, ix, iy)] + PathFrom(l, next.0, next.1)
  }

  /** The whole walk, from p0 to p1. */
  function Path(l: Line): seq<Point>
  {
    PathFrom(l, 0, 0)
  }

  /** The points of `path` that are neither endpoint of `l`: the ones the
      walk loop itself submits. */
  function Interior(path: seq<Point>, l: Line): (inner: seq<Point>)
    ensures |inner| <= |path|
  {
    if path == [] then []
    else if path[0] != l.p0 && path[0] != l.p1 then [path[0]] + Interior(path[1..], l)
    else Interior(path[1..], l)
  }

  /** The interior keeps exactly the points of the path that are neither endpoint. */
  lemma {:induction false} InteriorMembers(path: seq<Point>, l: Line, p: Point)
    ensures p in Interior(path, l) <==> p in path && p != l.p0 && p != l.p1
  {
    if path != [] {
      InteriorMembers(path[1..], l, p);
      assert path == [path[0]] + path[1..];
    }
  }

  /** What DrawLine submits, in order: p0, p1, then the interior of the walk. */
  function LineCells(l: Line): seq<Point>
  {
    [l.p0, l.p1] + Interior(Path(l), l)
  }

  /** One move of the walk: x changes by 0 or sx, y by 0 or sy, not both 0. */
  predicate KingStep(l: Line, a: Point, b: Point)
  {
    b.x - a.x in {0, Sx(l)} && b.y - a.y in {0, Sy(l)} && a != b
  }

  /** The walk ends at p1, every move is a king step (so the path is
      8-connected), every point lies in the line's bounding box, and the
      counters strictly increase, so p0 is only the first point and p1 only the last. */
  lemma {:induction false} PathFromShape(l: Line, ix: int, iy: int)
    requires Reachable(l, ix, iy)
    ensures var path := PathFrom(l, ix, iy);
      path[|path| - 1] == l.p1 &&
      (forall k :: 0 <= k < |path| - 1 ==> KingStep(l, path[k], path[k + 1])) &&
      (forall k :: 0 <= k < |path| ==> Covers(LineBoundingBox(l), path[k])) &&
      (forall k :: 0 < k < |path| ==> path[k] != l.p0) &&
      (forall k :: 0 <= k < |path| - 1 ==> path[k] != l.p1)
    decreases Dx(l) - ix + Dy(l) - iy
  {
    var path := PathFrom(l, ix, iy);
    AtEnd(l, ix, iy);
    assert Covers(LineBoundingBox(l), At(l, ix, iy));
    if !Done(l, ix, iy) {
      var next := Step(l, ix, iy);
      var tail := PathFrom(l, next.0, next.1);
      PathFromShape(l, next.0, next.1);
      AtEnd(l, next.0, next.1);
      assert path == [At(l, ix, iy)] + tail;
      StepIsKingStep(l, ix, iy);
      forall k | 0 < k < |path|
        ensures path[k] == tail[k - 1]
      {
      }
    }
  }

  /** One step of the walk moves to one of the eight neighbouring cells,
      toward p1 on each axis it moves along. */
  lemma StepIsKingStep(l: Line, ix: int, iy: int)
    requires Reachable(l, ix, iy) && !Done(l, ix, iy)
    ensures var next := Step(l, ix, iy);
      KingStep(l, At(l, ix, iy), At(l, next.0, next.1))
  {
    LoopStep(l, ix, iy, Err(l, ix, iy), At(l, ix, iy));
  }

  lemma PathShape(l: Line)
    ensures Path(l)[0] == l.p0 && Path(l)[|Path(l)| - 1] == l.p1
    ensures forall k :: 0 <= k < |Path(l)| - 1 ==> KingStep(l, Path(l)[k], Path(l)[k + 1])
    ensures forall k :: 0 <= k < |Path(l)| ==> Covers(LineBoundingBox(l), Path(l)[k])
    ensures l.p0 == l.p1 ==> Path(l) == [l.p0]
    ensures l.p0 != l.p1 ==> |Path(l)| >= 2 && Interior(Path(l), l) == Path(l)[1..|Path(l)| - 1]
  {
    PathFromShape(l, 0, 0);
    var path := Path(l);
    if l.p0 == l.p1 {
      AtEnd(l, 0, 0);
    } else {
      AtEnd(l, 0, 0);
      InteriorOfPath(path, l);
    }
  }

  lemma {:induction false} InteriorOfPath(path: seq<Point>, l: Line)
    requires |path| >= 2 && path[0] == l.p0 && path[|path| - 1] == l.p1 && l.p0 != l.p1
    requires forall k :: 0 < k < |path| - 1 ==> path[k] != l.p0 && path[k] != l.p1
    ensures Interior(path, l) == path[1..|path| - 1]
  {
    InteriorOfMiddle(path[1..], l);
    assert path[1..][..|path[1..]| - 1] == path[1..|path| - 1];
  }

  lemma {:induction false} InteriorOfMiddle(s: seq<Point>, l: Line)
    requires |s| >= 1 && s[|s| - 1] == l.p1
    requires forall k :: 0 <= k < |s| - 1 ==> s[k] != l.p0 && s[k] != l.p1
    ensures Interior(s, l) == s[..|s| - 1]
  {
    if |s| > 1 {
      InteriorOfMiddle(s[1..], l);
      assert s[..|s| - 1] == [s[0]] + s[1..][..|s| - 2];
    }
  }

  /** The point the walk submits from state (ix, iy): the current point
      unless it is an endpoint. */
  function Plotted(l: Line, ix: int, iy: int): seq<Point>
  {
    var p := At(l, ix, iy);
    if p != l.p0 && p != l.p1 then [p] else []
  }

  /** One iteration of DrawLine's loop: at p1 the remaining interior is
      empty; otherwise it is the current point (unless an endpoint) followed
      by the interior from the next state. */
  lemma WalkUnfold(l: Line, ix: int, iy: int)
    requires Reachable(l, ix, iy)
    ensures Done(l, ix, iy) ==> Interior(PathFrom(l, ix, iy), l) == []
    ensures !Done(l, ix, iy) ==>
      var next := Step(l, ix, iy);
      Interior(PathFrom(l, ix, iy), l) == Plotted(l, ix, iy) + Interior(PathFrom(l, next.0, next.1), l)
  {
    AtEnd(l, ix, iy);
    var path := PathFrom(l, ix, iy);
    if !Done(l, ix, iy) {
      var next := Step(l, ix, iy);
      assert path[1..] == PathFrom(l, next.0, next.1);
    }
  }

  /** What DrawLine's loop still queues from state (ix, iy). */
  function WalkRest(l: Line, ix: int, iy: int, s: Style, width: int, height: int): seq<Request>
    requires Reachable(l, ix, iy)
  {
    Emit(Interior(PathFrom(l, ix, iy), l), s, width, height)
  }

  /** One iteration of DrawLine's loop in terms of queued requests: the
      current point when it is on the grid and not an endpoint, then the rest. */
  lemma WalkRestStep(l: Line, ix: int, iy: int, s: Style, width: int, height: int)
    requires Reachable(l, ix, iy)
    ensures Done(l, ix, iy) ==> WalkRest(l, ix, iy, s, width, height) == []
    ensures !Done(l, ix, iy) ==>
      var next := Step(l, ix, iy);
      var p := At(l, ix, iy);
      WalkRest(l, ix, iy, s, width, height) ==
        (if p != l.p0 && p != l.p1 && InBounds(RequestAt(p, s), width, height) then [RequestAt(p, s)] else []) +
        WalkRest(l, next.0, next.1, s, width, height)
  {
    WalkUnfold(l, ix, iy);
    if !Done(l, ix, iy) {
      var next := Step(l, ix, iy);
      EmitAppend(Plotted(l, ix, iy), Interior(PathFrom(l, next.0, next.1), l), s, width, height);
      EmitSingle(At(l, ix, iy), s, width, height);
    }
  }

  /** The queue invariant of DrawLine's loop survives one iteration. */
  lemma WalkQueueStep(l: Line, ix: int, iy: int, s: Style, width: int, height: int,
                      before: seq<Request>, after: seq<Request>, target: seq<Request>)
    requires Reachable(l, ix, iy) && !Done(l, ix, iy)
    requires before + WalkRest(l, ix, iy, s, width, height) == target
    requires var p := At(l, ix, iy);
      after == before + (if p != l.p0 && p != l.p1 && InBounds(RequestAt(p, s), width, height) then [RequestAt(p, s)] else [])
    ensures var next := Step(l, ix, iy); after + WalkRest(l, next.0, next.1, s, width, height) == target
  {
    var next := Step(l, ix, iy);
    var p := At(l, ix, iy);
    var here := if p != l.p0 && p != l.p1 && InBounds(RequestAt(p, s), width, height) then [RequestAt(p, s)] else [];
    var rest := WalkRest(l, next.0, next.1, s, width, height);
    WalkRestStep(l, ix, iy, s, width, height);
    assert WalkRest(l, ix, iy, s, width, height) == here + rest;
    Regroup(before, here, rest, target, after);
  }

  /** DrawLine's queue: p0 and then p1, each when it is on the grid, then
      what the walk queues from its start. */
  lemma LineQueue(l: Line, s: Style, width: int, height: int)
    ensures Emit(LineCells(l), s, width, height) ==
      (if InBounds(RequestAt(l.p0, s), width, height) then [RequestAt(l.p0, s)] else []) +
      (if InBounds(RequestAt(l.p1, s), width, height) then [RequestAt(l.p1, s)] else []) +
      WalkRest(l, 0, 0, s, width, height)
  {
    EmitAppend([l.p0, l.p1], Interior(Path(l), l), s, width, height);
    EmitAppend([l.p0], [l.p1], s, width, height);
    assert [l.p0] + [l.p1] == [l.p0, l.p1];
    EmitSingle(l.p0, s, width, height);
    EmitSingle(l.p1, s, width, height);
  }

  /** One pass of DrawLine's loop body from a reachable unfinished state,
      with the loop's own variables: the tests on e2 = 2 * err advance the
      counters exactly as Step does, and the updated err and current point
      are Err and At of the new counters. */
  lemma LoopStep(l: Line, ix: int, iy: int, err: int, current: Point)
    requires Reachable(l, ix, iy) && !Done(l, ix, iy)
    requires current == At(l, ix, iy) && err == Err(l, ix, iy)
    ensures var stepX, stepY := 2 * err > -Dy(l), 2 * err < Dx(l);
      var nx := if stepX then ix + 1 else ix;
      var ny := if stepY then iy + 1 else iy;
      Step(l, ix, iy) == (nx, ny) &&
      Err(l, nx, ny) == err - (if stepX then Dy(l) else 0) + (if stepY then Dx(l) else 0) &&
      At(l, nx, ny) == Point(current.x + (if stepX then Sx(l) else 0), current.y + (if stepY then Sy(l) else 0))
  {
    var stepX, stepY := 2 * err > -Dy(l), 2 * err < Dx(l);
    ErrAdvance(l, ix, iy, stepX, stepY);
    AtAdvance(l, ix, iy, stepX, stepY);
  }

  /** Each x-step takes dy off the accumulator and each y-step adds dx. */
  lemma ErrAdvance(l: Line, ix: int, iy: int, stepX: bool, stepY: bool)
    ensures Err(l, if stepX then ix + 1 else ix, if stepY then iy + 1 else iy) ==
      Err(l, ix, iy) - (if stepX then Dy(l) else 0) + (if stepY then Dx(l) else 0)
  {
    var dx, dy := Dx(l), Dy(l);
    assert (ix + 1) * dy == ix * dy + dy;
    assert (iy + 1) * dx == iy * dx + dx;
  }

  /** Each x-step moves the current point by sx and each y-step by sy. */
  lemma AtAdvance(l: Line, ix: int, iy: int, stepX: bool, stepY: bool)
    ensures At(l, if stepX then ix + 1 else ix, if stepY then iy + 1 else iy) ==
      Point(At(l, ix, iy).x + (if stepX then Sx(l) else 0), At(l, ix, iy).y + (if stepY then Sy(l) else 0))
  {
    var sx, sy := Sx(l), Sy(l);
    assert sx * (ix + 1) == sx * ix + sx;
    assert sy * (iy + 1) == sy * iy + sy;
  }

  /** When both endpoints are on the grid, the whole walk is, so nothing is
      clipped: DrawLine queues p0, p1 and then every point strictly between
      them on the walk; a line from a point to itself queues that point twice. */
  lemma LineOnGrid(l: Line, s: Style, width: int, height: int)
    requires 0 <= l.p0.x < width && 0 <= l.p0.y < height
    requires 0 <= l.p1.x < width && 0 <= l.p1.y < height
    ensures Emit(LineCells(l), s, width, height) == Paint(LineCells(l), s)
    ensures |Emit(LineCells(l), s, width, height)| == if l.p0 == l.p1 then 2 else |Path(l)|
  {
    PathShape(l);
    var cells := LineCells(l);
    forall i | 0 <= i < |Paint(cells, s)|
      ensures InBounds(Paint(cells, s)[i], width, height)
    {
      if i >= 2 {
        assert cells[i] in Interior(Path(l), l);
        InteriorMembers(Path(l), l, cells[i]);
        assert Covers(LineBoundingBox(l), cells[i]);
      }
    }
    ClipInside(Paint(cells, s), width, height);
    assert |cells| == 2 + |Interior(Path(l), l)|;
  }

  /** The first two requests DrawLine queues are p0 and then p1, when both are on the grid. */
  lemma LineStartsWithEndpoints(l: Line, s: Style, width: int, height: int)
    requires 0 <= l.p0.x < width && 0 <= l.p0.y < height
    requires 0 <= l.p1.x < width && 0 <= l.p1.y < height
    ensures |Emit(LineCells(l), s, width, height)| >= 2
    ensures Emit(LineCells(l), s, width, height)[0] == RequestAt(l.p0, s)
    ensures Emit(LineCells(l), s, width, height)[1] == RequestAt(l.p1, s)
  {
    EmitAppend([l.p0, l.p1], Interior(Path(l), l), s, width, height);
    var ends := Paint([l.p0, l.p1], s);
    assert ends == [RequestAt(l.p0, s), RequestAt(l.p1, s)];
    assert Clip(ends, width, height) == ends by {
      ClipInside(ends, width, height);
    }
  }

  /** On a diagonal (dx = dy) both counters advance together: the k-th point
      is p0 + k * (sx, sy) and the walk has dx + 1 points. */
  lemma {:induction false} DiagonalPathFrom(l: Line, i: int)
    requires Dx(l) == Dy(l) && 0 <= i <= Dx(l)
    ensures |PathFrom(l, i, i)| == Dx(l) - i + 1
    ensures forall k :: 0 <= k < |PathFrom(l, i, i)| ==> PathFrom(l, i, i)[k] == At(l, i + k, i + k)
    decreases Dx(l) - i
  {
    if i < Dx(l) {
      assert Err(l, i, i) == 0;
      assert Step(l, i, i) == (i + 1, i + 1);
      DiagonalPathFrom(l, i + 1);
    }
  }

  /** On a horizontal line the walk only moves in x. */
  lemma {:induction false} HorizontalPathFrom(l: Line, i: int)
    requires Dy(l) == 0 && 0 <= i <= Dx(l)
    ensures |PathFrom(l, i, 0)| == Dx(l) - i + 1
    ensures forall k :: 0 <= k < |PathFrom(l, i, 0)| ==> PathFrom(l, i, 0)[k] == At(l, i + k, 0)
    decreases Dx(l) - i
  {
    if i < Dx(l) {
      assert Err(l, i, 0) == Dx(l);
      assert Step(l, i, 0) == (i + 1, 0);
      HorizontalPathFrom(l, i + 1);
    }
  }

  /** On a vertical line the walk only moves in y. */
  lemma {:induction false} VerticalPathFrom(l: Line, i: int)
    requires Dx(l) == 0 && 0 <= i <= Dy(l)
    ensures |PathFrom(l, 0, i)| == Dy(l) - i + 1
    ensures forall k :: 0 <= k < |PathFrom(l, 0, i)| ==> PathFrom(l, 0, i)[k] == At(l, 0, i + k)
    decreases Dy(l) - i
  {
    if i < Dy(l) {
      assert Err(l, 0, i) == -Dy(l);
      assert Step(l, 0, i) == (0, i + 1);
      VerticalPathFrom(l, i + 1);
    }
  }

  /** A diagonal with both ends on the grid queues dx + 1 requests: p0, p1,
      then the points p0 + k * (sx, sy) for 0 < k < dx. */
  lemma DiagonalOnGrid(l: Line, s: Style, width: int, height: int)
    requires 0 <= l.p0.x < width && 0 <= l.p0.y < height
    requires 0 <= l.p1.x < width && 0 <= l.p1.y < height
    requires Dx(l) == Dy(l) && l.p0 != l.p1
    ensures |Emit(LineCells(l), s, width, height)| == Dx(l) + 1
    ensures forall k :: 2 <= k <= Dx(l) ==>
      Emit(LineCells(l), s, width, height)[k] == RequestAt(At(l, k - 1, k - 1), s)
  {
    DiagonalPathFrom(l, 0);
    LineOnGrid(l, s, width, height);
    PathShape(l);
    var path := Path(l);
    var cells := LineCells(l);
    forall k | 2 <= k <= Dx(l)
      ensures cells[k] == At(l, k - 1, k - 1)
    {
      assert cells[k] == path[k - 1];
    }
  }

  /** The main diagonal (0,0)-(n-1,n-1) of an n x n grid (for n = 10, the
      10 x 10 example) queues exactly n requests, one per row and column. */
  lemma MainDiagonal(l: Line, n: int, s: Style)
    requires n >= 2 && l == Line(Point(0, 0), Point(n - 1, n - 1))
    ensures |Emit(LineCells(l), s, n, n)| == n
    ensures forall k :: 2 <= k < n ==> Emit(LineCells(l), s, n, n)[k] == RequestAt(Point(k - 1, k - 1), s)
  {
    DiagonalOnGrid(l, s, n, n);
  }
}
