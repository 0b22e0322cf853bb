// The Display: a request queue, a front and a back buffer, and the drawing
// operations that fill the queue. Every drawing method is proved to append
// exactly the clipped requests its specification function describes, and
// UpdateDisplay to apply the queue and diff the buffers as Compositor says.
module DisplayEngine {
  import opened Geometry
  import opened Pixels
  import opened Lines
  import opened Barycentric
  import opened Polygons
  import opened Circles
  import opened Text
  import opened Compositor
  import opened Frames

  /** The contents of a buffer as a grid value, indexed [x][y]. */
  ghost function Snapshot(a: array2<Pixel>): (g: seq<seq<Pixel>>)
    reads a
    ensures IsGrid(g, a.Length0, a.Length1)
    ensures forall x, y :: 0 <= x < a.Length0 && 0 <= y < a.Length1 ==> g[x][y] == a[x, y]
  {
    seq(a.Length0, x requires 0 <= x < a.Length0 reads a =>
      seq(a.Length1, y requires 0 <= y < a.Length1 reads a => a[x, y]))
  }

  /** A grid value equal cell by cell to the buffer is its snapshot. */
  lemma SnapshotOf(a: array2<Pixel>, g: seq<seq<Pixel>>)
    requires IsGrid(g, a.Length0, a.Length1)
    requires forall x, y :: 0 <= x < a.Length0 && 0 <= y < a.Length1 ==> g[x][y] == a[x, y]
    ensures Snapshot(a) == g
  {
    var s := Snapshot(a);
    forall x | 0 <= x < a.Length0
      ensures s[x] == g[x]
    {
    }
  }

  /** FillFrame's queue: every cell of the grid, row by row, at priority 0. */
  function FillQueue(width: int, height: int, character: string, color: Color): seq<Request>
  {
    Paint(GridCells(0, width, 0, height), Style(character, color, 0))
  }

  /** The fill queue has one in-bounds request per cell, the k-th for cell
      (k mod width, k div width). */
  lemma FillQueueShape(width: int, height: int, character: string, color: Color)
    requires width > 0 && height >= 0
    ensures |FillQueue(width, height, character, color)| == width * height
    ensures forall k :: 0 <= k < width * height ==>
      FillQueue(width, height, character, color)[k] == Request(k % width, k / width, character, color, 0)
    ensures forall k :: 0 <= k < width * height ==> InBounds(FillQueue(width, height, character, color)[k], width, height)
  {
    var cells := GridCells(0, width, 0, height);
    forall k | 0 <= k < width * height
      ensures FillQueue(width, height, character, color)[k] == Request(k % width, k / width, character, color, 0)
    {
      GridCellsAt(0, width, 0, height, k);
    }
    forall k | 0 <= k < width * height
      ensures 0 <= k / width < height
    {
      if k / width >= height {
        MulNonPositive(width, height - k / width);
        assert false;
      }
    }
  }

  /** Clipping keeps the whole fill queue, so FillFrame queues every cell. */
  lemma FillQueueInBounds(width: int, height: int, character: string, color: Color)
    ensures Emit(GridCells(0, width, 0, height), Style(character, color, 0), width, height) ==
      FillQueue(width, height, character, color)
  {
    var rs := FillQueue(width, height, character, color);
    forall i | 0 <= i < |rs|
      ensures InBounds(rs[i], width, height)
    {
      var cells := GridCells(0, width, 0, height);
      GridCellsMembership(0, width, 0, height, cells[i]);
    }
    ClipInside(rs, width, height);
  }

  /** The four reflections of (a, b), painted and clipped, are what four
      consecutive MakeRequest calls of PlotCirclePoints keep. */
  lemma ReflectionRequests(r0: seq<Request>, c: Point, a: int, b: int, character: string, color: Color, zIndex: int,
                           width: int, height: int)
    ensures r0 + Emit(Reflections(c, a, b), Style(character, color, zIndex), width, height) ==
      r0 + Clip([Request(c.x + a, c.y + b, character, color, zIndex)], width, height) +
      Clip([Request(c.x - a, c.y + b, character, color, zIndex)], width, height) +
      Clip([Request(c.x + a, c.y - b, character, color, zIndex)], width, height) +
      Clip([Request(c.x - a, c.y - b, character, color, zIndex)], width, height)
  {
    var r1, r2 := Request(c.x + a, c.y + b, character, color, zIndex), Request(c.x - a, c.y + b, character, color, zIndex);
    var r3, r4 := Request(c.x + a, c.y - b, character, color, zIndex), Request(c.x - a, c.y - b, character, color, zIndex);
    assert Paint(Reflections(c, a, b), Style(character, color, zIndex)) == [r1, r2, r3, r4];
    ClipFour(r0, r1, r2, r3, r4, width, height);
  }

  /** Clipping four requests at once keeps what clipping them one by one keeps. */
  lemma ClipFour(r0: seq<Request>, r1: Request, r2: Request, r3: Request, r4: Request, width: int, height: int)
    ensures r0 + Clip([r1, r2, r3, r4], width, height) ==
      r0 + Clip([r1], width, height) + Clip([r2], width, height) + Clip([r3], width, height) + Clip([r4], width, height)
  {
    var a, b, c, d := Clip([r1], width, height), Clip([r2], width, height), Clip([r3], width, height), Clip([r4], width, height);
    assert [r1, r2] == [r1] + [r2];
    ClipAppend([r1], [r2], width, height);
    assert [r1, r2, r3] == [r1, r2] + [r3];
    ClipAppend([r1, r2], [r3], width, height);
    assert [r1, r2, r3, r4] == [r1, r2, r3] + [r4];
    ClipAppend([r1, r2, r3], [r4], width, height);
    assert Clip([r1, r2, r3, r4], width, height) == a + b + c + d;
  }

  /** The update at the end of DrawCircle's loop: y moves up, and x moves in
      when the decision variable is positive. */
  method MidpointAdvance(x: int, y: int, decisionOver2: int) returns (x': int, y': int, decisionOver2': int)
    ensures CircleState(x', y', decisionOver2') == Next(CircleState(x, y, decisionOver2))
  {
    x', y', decisionOver2' := x, y + 1, decisionOver2;
    if decisionOver2' <= 0 {
      decisionOver2' := decisionOver2' + 2 * y' + 1;
    } else {
      x' := x' - 1;
      decisionOver2' := decisionOver2' + 2 * (y' - x') + 1;
    }
  }

  /** One turn of DrawCircle's loop: the block of the current state is queued
      and the blocks of the states after it are what is left to do. */
  lemma CircleQueueStep(before: seq<Request>, after: seq<Request>, target: seq<Request>, c: Point,
                        state: CircleState, fill: bool, s: Style, width: int, height: int)
    requires state.y <= state.x
    requires before + Emit(Blocks(c, StatesFrom(state), fill), s, width, height) == target
    requires after == before + Emit(Block(c, state.x, state.y, fill), s, width, height)
    ensures after + Emit(Blocks(c, StatesFrom(Next(state)), fill), s, width, height) == target
  {
    BlocksStep(c, state, fill);
    QueueStep(before, after, target, Block(c, state.x, state.y, fill), Blocks(c, StatesFrom(Next(state)), fill), s, width, height);
  }

  predicate AllInBounds(rs: seq<Request>, width: int, height: int)
  {
    forall i :: 0 <= i < |rs| ==> InBounds(rs[i], width, height)
  }

  class Display {
    const resolution: Point
    var requests: seq<Request>
    const frameBuffer: array2<Pixel>
    const backBuffer: array2<Pixel>
    var emptyCharacter: string
    var baseColor: Color
    /** The console calls made so far, in order. */
    ghost var trace: seq<ConsoleEvent>

    /** Both buffers match the resolution and are distinct arrays. */
    ghost predicate Layout()
    {
      0 <= resolution.x && 0 <= resolution.y &&
      frameBuffer.Length0 == resolution.x && frameBuffer.Length1 == resolution.y &&
      backBuffer.Length0 == resolution.x && backBuffer.Length1 == resolution.y &&
      frameBuffer != backBuffer
    }

    /** The buffers are laid out for the resolution and every queued request
        targets a cell of the grid, so applying the queue stays in bounds. */
    ghost predicate Valid()
      reads this`requests
    {
      Layout() && AllInBounds(requests, resolution.x, resolution.y)
    }

    /** A fresh display: both buffers hold the default cell (no glyph, the
        first palette color, priority 0) and the queue is empty. */
    constructor (resolution: Point)
      requires resolution.x >= 0 && resolution.y >= 0
      ensures Valid() && this.resolution == resolution
      ensures fresh(frameBuffer) && fresh(backBuffer)
      ensures requests == [] && trace == [] && emptyCharacter == "" && baseColor == Black
      ensures forall x, y :: 0 <= x < resolution.x && 0 <= y < resolution.y ==>
        frameBuffer[x, y] == Pixel("", Black, 0) && backBuffer[x, y] == Pixel("", Black, 0)
    {
      this.resolution := resolution;
      frameBuffer := new Pixel[resolution.x, resolution.y]((x, y) => Pixel("", Black, 0));
      backBuffer := new Pixel[resolution.x, resolution.y]((x, y) => Pixel("", Black, 0));
      requests := [];
      emptyCharacter := "";
      baseColor := Black;
      trace := [];
    }

    /** Queues the request when it targets a cell of the grid; drops it otherwise. */
    method MakeRequest(request: Request)
      requires Valid()
      modifies this`requests
      ensures Valid()
      ensures requests == old(requests) + Clip([request], resolution.x, resolution.y)
    {
      ClipSingle(request, resolution.x, resolution.y);
      if request.x >= resolution.x || request.y >= resolution.y || request.x < 0 || request.y < 0 {
        return;
      }
      requests := requests + [request];
    }

    /** Queues p0, p1, then every point of Bresenham's walk from p0 to p1 that
        is neither endpoint, each clipped to the grid. */
    method DrawLine(line: Line, character: string, color: Color, zIndex: int)
      requires Valid()
      modifies this`requests
      ensures Valid()
      ensures requests == old(requests) + Emit(LineCells(line), Style(character, color, zIndex), resolution.x, resolution.y)
    {
      var s := Style(character, color, zIndex);
      ghost var width, height := resolution.x, resolution.y;
      ghost var first := if InBounds(RequestAt(line.p0, s), width, height) then [RequestAt(line.p0, s)] else [];
      ghost var second := if InBounds(RequestAt(line.p1, s), width, height) then [RequestAt(line.p1, s)] else [];
      LineQueue(line, s, width, height);
      ClipSingle(RequestAt(line.p0, s), width, height);
      ClipSingle(RequestAt(line.p1, s), width, height);
      MakeRequest(RequestAt(line.p0, s));
      assert requests == old(requests) + first;
      MakeRequest(RequestAt(line.p1, s));
      assert requests == old(requests) + first + second;
      Walk(line, s);
      assert requests == old(requests) + (first + second + WalkRest(line, 0, 0, s, width, height));
    }

    /** DrawLine's loop: walks from p0 to p1, updating the accumulator and the
        current point, and queues each point that is neither endpoint. */
    method Walk(line: Line, s: Style)
      requires Valid()
      modifies this`requests
      ensures Valid()
      ensures requests == old(requests) + WalkRest(line, 0, 0, s, resolution.x, resolution.y)
    {
      var width, height := resolution.x, resolution.y;
      var dx: int := Abs(line.p1.x - line.p0.x);
      var dy: int := Abs(line.p1.y - line.p0.y);
      var sx := if line.p0.x < line.p1.x then 1 else -1;
      var sy := if line.p0.y < line.p1.y then 1 else -1;
      var err: int := dx - dy;
      var current := Point(line.p0.x, line.p0.y);
      ghost var ix, iy := 0, 0;
      ghost var target := requests + WalkRest(line, 0, 0, s, width, height);

      while true
        invariant Valid()
        invariant Reachable(line, ix, iy) && current == At(line, ix, iy) && err == Err(line, ix, iy)
        invariant requests + WalkRest(line, ix, iy, s, width, height) == target
        decreases Dx(line) - ix + Dy(line) - iy
      {
        ghost var before := requests;
        ghost var here: seq<Request> :=
          if current != line.p0 && current != line.p1 && InBounds(RequestAt(current, s), width, height)
          then [RequestAt(current, s)] else [];
        if !(current.x == line.p0.x && current.y == line.p0.y) && !(current.x == line.p1.x && current.y == line.p1.y) {
          MakeRequest(RequestAt(current, s));
          ClipSingle(RequestAt(current, s), width, height);
        }
        assert requests == before + here;
        AtEnd(line, ix, iy);
        assert (current.x == line.p1.x && current.y == line.p1.y) == Done(line, ix, iy);
        if current.x == line.p1.x && current.y == line.p1.y {
          WalkRestStep(line, ix, iy, s, width, height);
          break;
        }
        WalkQueueStep(line, ix, iy, s, width, height, before, requests, target);
        err, current, ix, iy := Advance(line, dx, dy, sx, sy, err, current, ix, iy);
      }
    }

    /** The nested loops of DrawRectangle's fill and of FillFrame: every cell of
        [x0, x1) x [y0, y1), row by row, submitted with style s. */
    method FillBox(x0: int, x1: int, y0: int, y1: int, s: Style)
      requires Valid()
      modifies this`requests
      ensures Valid()
      ensures requests == old(requests) + Emit(GridCells(x0, x1, y0, y1), s, resolution.x, resolution.y)
    {
      ghost var width, height := resolution.x, resolution.y;
      var y := y0;
      GridScan(x0, x1, y0, y1);
      while y < y1
        invariant Valid()
        invariant y0 <= y <= Max(y0, y1)
        invariant requests == old(requests) + Emit(GridCells(x0, x1, y0, y), s, width, height)
      {
        ghost var done := requests;
        var x := x0;
        RowScan(x0, x1, y);
        while x < x1
          invariant Valid()
          invariant x0 <= x <= Max(x0, x1)
          invariant requests == done + Emit(Row(x0, x, y), s, width, height)
        {
          ghost var before := requests;
          MakeRequest(RequestAt(Point(x, y), s));
          QueueSnoc(done, before, requests, Row(x0, x, y), Point(x, y), s, width, height);
          RowSnoc(x0, x, y);
          x := x + 1;
        }
        assert x == Max(x0, x1);
        EmitChain(old(requests), done, requests, GridCells(x0, x1, y0, y), Row(x0, x1, y), s, width, height);
        GridCellsSnoc(x0, x1, y0, y);
        y := y + 1;
      }
      assert y == Max(y0, y1);
    }

    /** The four edges corner 1 -> 2 -> 3 -> 4 -> 1 of the box spanned by the two
        given corners and then, when asked, its strict interior row by row. */
    method DrawRectangle(rect: Rectangle, character: string, fill: bool, color: Color, zIndex: int)
      requires Valid()
      modifies this`requests
      ensures Valid()
      ensures requests == old(requests) + Emit(RectCells(rect, fill), Style(character, color, zIndex), resolution.x, resolution.y)
    {
      var xMax := Max(rect.p0.x, rect.p1.x);
      var xMin := Min(rect.p0.x, rect.p1.x);
      var yMax := Max(rect.p0.y, rect.p1.y);
      var yMin := Min(rect.p0.y, rect.p1.y);
      var point1 := Point(xMin, yMin);
      var point2 := Point(xMax, yMin);
      var point3 := Point(xMax, yMax);
      var point4 := Point(xMin, yMax);
      ghost var s, width, height := Style(character, color, zIndex), resolution.x, resolution.y;
      ghost var l1, l2, l3, l4 := LineCells(Line(point1, point2)), LineCells(Line(point2, point3)),
                                  LineCells(Line(point3, point4)), LineCells(Line(point4, point1));
      ghost var r0 := requests;
      DrawLine(Line(point1, point2), character, color, zIndex);
      ghost var r1 := requests;
      DrawLine(Line(point2, point3), character, color, zIndex);
      ghost var r2 := requests;
      EmitChain(r0, r1, r2, l1, l2, s, width, height);
      DrawLine(Line(point3, point4), character, color, zIndex);
      ghost var r3 := requests;
      EmitChain(r0, r2, r3, l1 + l2, l3, s, width, height);
      DrawLine(Line(point4, point1), character, color, zIndex);
      ghost var r4 := requests;
      EmitChain(r0, r3, r4, l1 + l2 + l3, l4, s, width, height);
      ghost var box := if fill then GridCells(xMin + 1, xMax, yMin + 1, yMax) else [];
      if fill {
        FillBox(xMin + 1, xMax, yMin + 1, yMax, Style(character, color, zIndex));
      } else {
        EmitSingle(point1, s, width, height);
      }
      EmitChain(r0, r4, requests, l1 + l2 + l3 + l4, box, s, width, height);
      RectCellsPieces(rect, fill, xMin, xMax, yMin, yMax);
    }

    /** Queues every cell of the grid, row by row, in the given glyph and color at priority 0. */
    method FillFrame(character: string, color: Color)
      requires Valid()
      modifies this`requests
      ensures Valid()
      ensures requests == old(requests) + FillQueue(resolution.x, resolution.y, character, color)
    {
      var s := Style(character, color, 0);
      FillBox(0, resolution.x, 0, resolution.y, s);
      FillQueueInBounds(resolution.x, resolution.y, character, color);
    }

    /** The nested loops of the triangle fills: every cell of [x0, x1) x [y0, y1),
        row by row, that passes the containment test for (a, b, c). */
    method FillTriangle(a: Point, b: Point, c: Point, x0: int, x1: int, y0: int, y1: int, s: Style)
      requires Valid()
      modifies this`requests
      ensures Valid()
      ensures requests == old(requests) + Emit(InsideOf(GridCells(x0, x1, y0, y1), a, b, c), s, resolution.x, resolution.y)
    {
      ghost var width, height := resolution.x, resolution.y;
      var y := y0;
      GridScan(x0, x1, y0, y1);
      assert InsideOf(GridCells(x0, x1, y0, y), a, b, c) == [];
      EmitSingle(a, s, width, height);
      while y < y1
        invariant Valid()
        invariant y0 <= y <= Max(y0, y1)
        invariant requests == old(requests) + Emit(InsideOf(GridCells(x0, x1, y0, y), a, b, c), s, width, height)
      {
        ghost var done := requests;
        FillTriangleRow(a, b, c, x0, x1, y, s);
        InsideOfAppend(GridCells(x0, x1, y0, y), Row(x0, x1, y), a, b, c);
        EmitChain(old(requests), done, requests, InsideOf(GridCells(x0, x1, y0, y), a, b, c),
                  InsideOf(Row(x0, x1, y), a, b, c), s, width, height);
        GridCellsSnoc(x0, x1, y0, y);
        y := y + 1;
      }
      assert y == Max(y0, y1);
    }

    /** The inner loop of the triangle fills: the cells of row y from x0 up to
        x1, exclusive, that pass the containment test. */
    method FillTriangleRow(a: Point, b: Point, c: Point, x0: int, x1: int, y: int, s: Style)
      requires Valid()
      modifies this`requests
      ensures Valid()
      ensures requests == old(requests) + Emit(InsideOf(Row(x0, x1, y), a, b, c), s, resolution.x, resolution.y)
    {
      ghost var width, height := resolution.x, resolution.y;
      var x := x0;
      RowScan(x0, x1, y);
      while x < x1
        invariant Valid()
        invariant x0 <= x <= Max(x0, x1)
        invariant requests == old(requests) + Emit(InsideOf(Row(x0, x, y), a, b, c), s, width, height)
      {
        ghost var before := requests;
        if IsInsideTriangle(a, b, c, Point(x, y)) {
          MakeRequest(RequestAt(Point(x, y), s));
        }
        QueueInsideSnoc(old(requests), before, requests, Row(x0, x, y), Point(x, y), a, b, c, s, width, height);
        RowSnoc(x0, x, y);
        x := x + 1;
      }
      assert x == Max(x0, x1);
    }

    /** When asked, fills the cells of the half-open bounding box that pass the
        containment test, then draws p0 -> p1, p1 -> p2, p2 -> p0. */
    method DrawTriangle(tri: Triangle, character: string, fill: bool, color: Color, zIndex: int)
      requires Valid()
      modifies this`requests
      ensures Valid()
      ensures requests == old(requests) + Emit(TriangleCells(tri, fill), Style(character, color, zIndex), resolution.x, resolution.y)
    {
      ghost var s, width, height := Style(character, color, zIndex), resolution.x, resolution.y;
      ghost var r0 := requests;
      if fill {
        var yMax := Max(Max(tri.p0.y, tri.p1.y), tri.p2.y);
        var yMin := Min(Min(tri.p0.y, tri.p1.y), tri.p2.y);
        var xMax := Max(Max(tri.p0.x, tri.p1.x), tri.p2.x);
        var xMin := Min(Min(tri.p0.x, tri.p1.x), tri.p2.x);
        FillTriangle(tri.p0, tri.p1, tri.p2, xMin, xMax, yMin, yMax, Style(character, color, zIndex));
        TriangleFillBox(tri.p0, tri.p1, tri.p2, xMin, xMax, yMin, yMax);
      } else {
        EmitSingle(tri.p0, s, width, height);
      }
      ghost var f := if fill then TriangleFill(tri.p0, tri.p1, tri.p2) else [];
      ghost var l1, l2, l3 := LineCells(Line(tri.p0, tri.p1)), LineCells(Line(tri.p1, tri.p2)), LineCells(Line(tri.p2, tri.p0));
      ghost var r1 := requests;
      DrawLine(Line(tri.p0, tri.p1), character, color, zIndex);
      ghost var r2 := requests;
      EmitChain(r0, r1, r2, f, l1, s, width, height);
      DrawLine(Line(tri.p1, tri.p2), character, color, zIndex);
      ghost var r3 := requests;
      EmitChain(r0, r2, r3, f + l1, l2, s, width, height);
      DrawLine(Line(tri.p2, tri.p0), character, color, zIndex);
      EmitChain(r0, r3, requests, f + l1 + l2, l3, s, width, height);
    }

    /** Draws p0 -> p1 -> p2 -> p3 -> p0 and then, when asked, fills the triangles
        (p0, p1, p2) and (p2, p3, p0), each over its own half-open bounding box. */
    method DrawQuad(quad: Quad, character: string, fill: bool, color: Color, zIndex: int)
      requires Valid()
      modifies this`requests
      ensures Valid()
      ensures requests == old(requests) + Emit(QuadCells(quad, fill), Style(character, color, zIndex), resolution.x, resolution.y)
    {
      ghost var s, width, height := Style(character, color, zIndex), resolution.x, resolution.y;
      ghost var l1, l2, l3, l4 := LineCells(Line(quad.p0, quad.p1)), LineCells(Line(quad.p1, quad.p2)),
                                  LineCells(Line(quad.p2, quad.p3)), LineCells(Line(quad.p3, quad.p0));
      ghost var r0 := requests;
      DrawLine(Line(quad.p0, quad.p1), character, color, zIndex);
      ghost var r1 := requests;
      DrawLine(Line(quad.p1, quad.p2), character, color, zIndex);
      ghost var r2 := requests;
      EmitChain(r0, r1, r2, l1, l2, s, width, height);
      DrawLine(Line(quad.p2, quad.p3), character, color, zIndex);
      ghost var r3 := requests;
      EmitChain(r0, r2, r3, l1 + l2, l3, s, width, height);
      DrawLine(Line(quad.p3, quad.p0), character, color, zIndex);
      ghost var r4 := requests;
      EmitChain(r0, r3, r4, l1 + l2 + l3, l4, s, width, height);
      ghost var f1, f2 := TriangleFill(quad.p0, quad.p1, quad.p2), TriangleFill(quad.p2, quad.p3, quad.p0);
      if fill {
        var xMax := Max(quad.p0.x, Max(quad.p1.x, quad.p2.x));
        var xMin := Min(quad.p0.x, Min(quad.p1.x, quad.p2.x));
        var yMax := Max(quad.p0.y, Max(quad.p1.y, quad.p2.y));
        var yMin := Min(quad.p0.y, Min(quad.p1.y, quad.p2.y));
        FillTriangle(quad.p0, quad.p1, quad.p2, xMin, xMax, yMin, yMax, Style(character, color, zIndex));
        TriangleFillBox(quad.p0, quad.p1, quad.p2, xMin, xMax, yMin, yMax);
        ghost var r5 := requests;
        xMax := Max(quad.p2.x, Max(quad.p3.x, quad.p0.x));
        xMin := Min(quad.p2.x, Min(quad.p3.x, quad.p0.x));
        yMax := Max(quad.p2.y, Max(quad.p3.y, quad.p0.y));
        yMin := Min(quad.p2.y, Min(quad.p3.y, quad.p0.y));
        FillTriangle(quad.p2, quad.p3, quad.p0, xMin, xMax, yMin, yMax, Style(character, color, zIndex));
        TriangleFillBox(quad.p2, quad.p3, quad.p0, xMin, xMax, yMin, yMax);
        EmitChain(r4, r5, requests, f1, f2, s, width, height);
      } else {
        EmitSingle(quad.p0, s, width, height);
      }
      ghost var f := if fill then f1 + f2 else [];
      EmitChain(r0, r4, requests, l1 + l2 + l3 + l4, f, s, width, height);
    }

    /** Lays the characters of `text` out from p0, one request per character;
        a character that reaches the right edge wraps to column 0 of the next
        row, and a character whose column or starting row is past the grid is
        skipped without advancing the column. */
    method DrawText(p0: Point, text: string, color: Color, zIndex: int)
      requires Valid()
      modifies this`requests
      ensures Valid()
      ensures requests == old(requests) + Clip(TextRequests(p0, text, color, zIndex, resolution.x, resolution.y), resolution.x, resolution.y)
    {
      ghost var width, height := resolution.x, resolution.y;
      ghost var target := requests + Clip(TextRequests(p0, text, color, zIndex, width, height), width, height);
      var index := 0;
      var lineOffset := 0;
      for i := 0 to |text|
        invariant Valid()
        invariant requests + Clip(TextFrom(p0, text[i..], index, lineOffset, color, zIndex, width, height), width, height) == target
      {
        ghost var before, index0, lineOffset0 := requests, index, lineOffset;
        if p0.x + index == resolution.x {
          lineOffset := lineOffset + 1;
          index := -p0.x;
        }
        TextFromStep(p0, text, i, index0, lineOffset0, index, lineOffset, color, zIndex, width, height);
        if p0.x + index <= resolution.x - 1 && p0.y <= resolution.y - 1 {
          MakeRequest(Request(p0.x + index, p0.y + lineOffset, [text[i]], color, zIndex));
          QueueCons(before, requests, Request(p0.x + index, p0.y + lineOffset, [text[i]], color, zIndex),
                    TextFrom(p0, text[i + 1..], index + 1, lineOffset, color, zIndex, width, height), width, height);
          index := index + 1;
        }
      }
      assert text[|text|..] == [];
    }

    /** The eight reflections of (x, y) about the center, in a fixed order. */
    method PlotCirclePoints(center: Point, x: int, y: int, character: string, color: Color, zIndex: int)
      requires Valid()
      modifies this`requests
      ensures Valid()
      ensures requests == old(requests) + Emit(Octants(center, x, y), Style(character, color, zIndex), resolution.x, resolution.y)
    {
      ghost var s, width, height := Style(character, color, zIndex), resolution.x, resolution.y;
      ghost var r0 := requests;
      ReflectionRequests(r0, center, x, y, character, color, zIndex, width, height);
      MakeRequest(Request(center.x + x, center.y + y, character, color, zIndex));
      MakeRequest(Request(center.x - x, center.y + y, character, color, zIndex));
      MakeRequest(Request(center.x + x, center.y - y, character, color, zIndex));
      MakeRequest(Request(center.x - x, center.y - y, character, color, zIndex));
      ghost var r4 := requests;
      ReflectionRequests(r4, center, y, x, character, color, zIndex, width, height);
      MakeRequest(Request(center.x + y, center.y + x, character, color, zIndex));
      MakeRequest(Request(center.x - y, center.y + x, character, color, zIndex));
      MakeRequest(Request(center.x + y, center.y - x, character, color, zIndex));
      MakeRequest(Request(center.x - y, center.y - x, character, color, zIndex));
      EmitChain(r0, r4, requests, Reflections(center, x, y), Reflections(center, y, x), s, width, height);
    }

    /** For each column from center.x - x to center.x + x, the cell in row
        center.y + y and then the cell in row center.y - y. */
    method FillCircleLine(center: Point, x: int, y: int, character: string, color: Color, zIndex: int)
      requires Valid()
      modifies this`requests
      ensures Valid()
      ensures requests == old(requests) + Emit(Span(center, x, y), Style(character, color, zIndex), resolution.x, resolution.y)
    {
      ghost var s, width, height := Style(character, color, zIndex), resolution.x, resolution.y;
      SpanScan(center, x, y);
      var i := center.x - x;
      while i <= center.x + x
        invariant Valid()
        invariant center.x - x <= i <= Max(center.x - x, center.x + x + 1)
        invariant requests == old(requests) + Emit(SpanUpTo(center, x, y, i), s, width, height)
      {
        ghost var before := requests;
        MakeRequest(Request(i, center.y + y, character, color, zIndex));
        QueueSnoc(old(requests), before, requests, SpanUpTo(center, x, y, i), Point(i, center.y + y), s, width, height);
        before := requests;
        MakeRequest(Request(i, center.y - y, character, color, zIndex));
        QueueSnoc(old(requests), before, requests, SpanUpTo(center, x, y, i) + [Point(i, center.y + y)],
                  Point(i, center.y - y), s, width, height);
        SpanUpToStep(center, x, y, i);
        i := i + 1;
      }
      assert i == Max(center.x - x, center.x + x + 1);
    }

    /** DrawCircle's loop, with the style its plotting calls pass: the
        midpoint walk from (radius, 0), plotting the eight octant points of
        each state or, when filling, the spans of rows y and x. */
    method CircleWalk(cir: Circle, fill: bool, s: Style)
      requires Valid()
      modifies this`requests
      ensures Valid()
      ensures requests == old(requests) + Emit(CircleCells(cir, fill), s, resolution.x, resolution.y)
    {
      ghost var width, height := resolution.x, resolution.y;
      ghost var target := requests + Emit(CircleCells(cir, fill), s, width, height);
      var x := cir.radius;
      var y := 0;
      var decisionOver2 := 1 - x;
      while y <= x
        invariant Valid()
        invariant requests + Emit(Blocks(cir.center, StatesFrom(CircleState(x, y, decisionOver2)), fill), s, width, height) == target
        decreases x - y + 1
      {
        ghost var before, state := requests, CircleState(x, y, decisionOver2);
        PlotBlock(cir.center, x, y, fill, s);
        CircleQueueStep(before, requests, target, cir.center, state, fill, s, width, height);
        x, y, decisionOver2 := MidpointAdvance(x, y, decisionOver2);
      }
      EmitSingle(cir.center, s, width, height);
    }

    /** The plotting in one turn of DrawCircle's loop: the spans of rows
        c.y +- y and c.y +- x when filling, the eight octant points otherwise. */
    method PlotBlock(center: Point, x: int, y: int, fill: bool, s: Style)
      requires Valid()
      modifies this`requests
      ensures Valid()
      ensures requests == old(requests) + Emit(Block(center, x, y, fill), s, resolution.x, resolution.y)
    {
      if fill {
        FillCircleLine(center, x, y, s.character, s.color, s.zIndex);
        ghost var half := requests;
        FillCircleLine(center, y, x, s.character, s.color, s.zIndex);
        EmitChain(old(requests), half, requests, Span(center, x, y), Span(center, y, x), s, resolution.x, resolution.y);
      } else {
        PlotCirclePoints(center, x, y, s.character, s.color, s.zIndex);
      }
    }

    /** DrawCircle as written: its plotting calls leave out the zIndex
        argument, so every request it queues carries priority 0 whatever
        zIndex the caller asked for. */
    method DrawCircle(cir: Circle, character: string, fill: bool, color: Color, zIndex: int)
      requires Valid()
      modifies this`requests
      ensures Valid()
      ensures requests == old(requests) + Emit(CircleCells(cir, fill), Style(character, color, 0), resolution.x, resolution.y)
    {
      CircleWalk(cir, fill, Style(character, color, 0));
    }

    /** DrawCircle as its signature promises: the plotting calls pass zIndex on. */
    method DrawCircleAtDepth(cir: Circle, character: string, fill: bool, color: Color, zIndex: int)
      requires Valid()
      modifies this`requests
      ensures Valid()
      ensures requests == old(requests) + Emit(CircleCells(cir, fill), Style(character, color, zIndex), resolution.x, resolution.y)
    {
      CircleWalk(cir, fill, Style(character, color, zIndex));
    }

    /** Applies the queued requests in order, then writes the cells that changed
        (or show the empty glyph) to the console row by row, syncing the back
        buffer, clears the queue and parks the cursor below the grid. */
    method UpdateDisplay()
      requires Valid()
      modifies this`requests, this`trace, frameBuffer, backBuffer
      ensures Valid()
      ensures forall x, y :: 0 <= x < resolution.x && 0 <= y < resolution.y ==>
        frameBuffer[x, y] == ApplyCell(old(frameBuffer[x, y]), old(requests), x, y, emptyCharacter, baseColor)
      ensures Snapshot(backBuffer) == Sync(Snapshot(frameBuffer), old(Snapshot(backBuffer)), resolution.x, resolution.y, emptyCharacter)
      ensures trace == old(trace) + Diff(Snapshot(frameBuffer), old(Snapshot(backBuffer)), resolution.x, resolution.y, emptyCharacter) +
        [SetCursor(0, resolution.y + 1)]
      ensures requests == []
    {
      ApplyQueue();
      Redraw();
      requests := [];
      trace := trace + [SetCursor(0, resolution.y + 1)];
    }

    /** UpdateDisplay's first loop: each queued request, in order, overwrites
        its cell when its priority is at least the cell's or the cell still
        shows the blank. */
    method ApplyQueue()
      requires Valid()
      modifies frameBuffer
      ensures Valid()
      ensures forall x, y :: 0 <= x < resolution.x && 0 <= y < resolution.y ==>
        frameBuffer[x, y] == ApplyCell(old(frameBuffer[x, y]), requests, x, y, emptyCharacter, baseColor)
    {
      for i := 0 to |requests|
        invariant forall x, y :: 0 <= x < resolution.x && 0 <= y < resolution.y ==>
          frameBuffer[x, y] == ApplyCell(old(frameBuffer[x, y]), requests[..i], x, y, emptyCharacter, baseColor)
      {
        var req := requests[i];
        ghost var before := frameBuffer[req.x, req.y];
        if req.zIndex >= frameBuffer[req.x, req.y].zIndex ||
           (frameBuffer[req.x, req.y].character == emptyCharacter && frameBuffer[req.x, req.y].color == baseColor) {
          frameBuffer[req.x, req.y] := Pixel(req.character, req.color, req.zIndex);
        }
        forall x, y | 0 <= x < resolution.x && 0 <= y < resolution.y
          ensures frameBuffer[x, y] == ApplyCell(old(frameBuffer[x, y]), requests[..i + 1], x, y, emptyCharacter, baseColor)
        {
          ApplyCellSnoc(old(frameBuffer[x, y]), requests, i, x, y, emptyCharacter, baseColor);
        }
      }
      assert requests[..|requests|] == requests;
    }

    /** UpdateDisplay's second loop: row by row, each cell whose glyph or color
        differs from the back buffer's, or that shows the empty glyph, is
        written at column 2x of row y in its color and copied to the back buffer. */
    method Redraw()
      requires Valid()
      modifies this`trace, backBuffer
      ensures Valid()
      ensures Snapshot(backBuffer) == Sync(Snapshot(frameBuffer), old(Snapshot(backBuffer)), resolution.x, resolution.y, emptyCharacter)
      ensures trace == old(trace) + Diff(Snapshot(frameBuffer), old(Snapshot(backBuffer)), resolution.x, resolution.y, emptyCharacter)
    {
      ghost var width, height, empty := resolution.x, resolution.y, emptyCharacter;
      ghost var front, back := Snapshot(frameBuffer), Snapshot(backBuffer);
      for y := 0 to resolution.y
        invariant trace == old(trace) + DiffRows(front, back, width, height, y, empty)
        invariant forall i, j :: 0 <= i < width && 0 <= j < height ==>
          backBuffer[i, j] == if j < y then Synced(front[i][j], back[i][j], empty) else back[i][j]
      {
        ghost var before := trace;
        RedrawRow(y, front, back);
        DiffRowsStep(front, back, width, height, y, empty, old(trace), before, trace);
      }
      SnapshotOf(backBuffer, Sync(front, back, width, height, empty));
    }

    /** The inner loop of the diff: the cells of row y, left to right. */
    method RedrawRow(y: int, ghost front: seq<seq<Pixel>>, ghost back: seq<seq<Pixel>>)
      requires Valid() && 0 <= y < resolution.y
      requires IsGrid(front, resolution.x, resolution.y) && IsGrid(back, resolution.x, resolution.y)
      requires forall i :: 0 <= i < resolution.x ==> frameBuffer[i, y] == front[i][y] && backBuffer[i, y] == back[i][y]
      modifies this`trace, backBuffer
      ensures Valid()
      ensures trace == old(trace) + DiffRow(front, back, resolution.x, resolution.y, y, resolution.x, emptyCharacter)
      ensures forall i :: 0 <= i < resolution.x ==> backBuffer[i, y] == Synced(front[i][y], back[i][y], emptyCharacter)
      ensures forall i, j :: 0 <= i < resolution.x && 0 <= j < resolution.y && j != y ==> backBuffer[i, j] == old(backBuffer[i, j])
    {
      for x := 0 to resolution.x
        invariant trace == old(trace) + DiffRow(front, back, resolution.x, resolution.y, y, x, emptyCharacter)
        invariant forall i :: 0 <= i < resolution.x ==>
          backBuffer[i, y] == if i < x then Synced(front[i][y], back[i][y], emptyCharacter) else back[i][y]
        invariant forall i, j :: 0 <= i < resolution.x && 0 <= j < resolution.y && j != y ==> backBuffer[i, j] == old(backBuffer[i, j])
      {
        ghost var before := trace;
        var current := frameBuffer[x, y];
        var previous := backBuffer[x, y];
        if (current.character != previous.character || current.color != previous.color) || current.character == emptyCharacter {
          trace := trace + [SetCursor(x * 2, y), SetColor(current.color), Write(current.character)];
          backBuffer[x, y] := current;
        }
        DiffRowStep(front, back, resolution.x, resolution.y, y, x, emptyCharacter, old(trace), before, trace);
      }
    }

    /** LoadFrame's nested loops over [0, x1) x [0, y1), y outer: each cell's
        glyph and color from the frame, at the given priority. */
    method LoadCells(frame: Frame, x1: int, y1: int, zIndex: int)
      requires Valid() && frame.Valid()
      requires x1 <= resolution.x && y1 <= resolution.y
      requires x1 <= 0 || y1 <= 0 || (x1 <= frame.characters.Length0 && y1 <= frame.characters.Length1)
      modifies this`requests
      ensures Valid()
      ensures requests == old(requests) + FrameRequests(frame, GridCells(0, x1, 0, y1), zIndex)
    {
      ghost var width, height := resolution.x, resolution.y;
      var y := 0;
      GridScan(0, x1, 0, y1);
      while y < y1
        invariant Valid()
        invariant 0 <= y <= Max(0, y1)
        invariant requests == old(requests) + FrameRequests(frame, GridCells(0, x1, 0, y), zIndex)
      {
        ghost var done := requests;
        var x := 0;
        RowScan(0, x1, y);
        while x < x1
          invariant Valid()
          invariant 0 <= x <= Max(0, x1)
          invariant requests == done + FrameRequests(frame, Row(0, x, y), zIndex)
        {
          ghost var before := requests;
          MakeRequest(Request(x, y, frame.characters[x, y], frame.colors[x, y], zIndex));
          FrameQueueSnoc(done, before, requests, frame, Row(0, x, y), Point(x, y), zIndex, width, height);
          RowSnoc(0, x, y);
          x := x + 1;
        }
        assert x == Max(0, x1);
        FrameChain(old(requests), done, requests, frame, GridCells(0, x1, 0, y), Row(0, x1, y), zIndex);
        GridCellsSnoc(0, x1, 0, y);
        y := y + 1;
      }
      assert y == Max(0, y1);
    }

    /** LoadFrame as written: its loops stop at resolution - 1 in both
        directions, so the last column and the last row are never loaded. The
        frame must cover the cells that are read. */
    method LoadFrame(frame: Frame, zIndex: int)
      requires Valid() && frame.Valid()
      requires resolution.x <= 1 || resolution.y <= 1 ||
        (resolution.x - 1 <= frame.characters.Length0 && resolution.y - 1 <= frame.characters.Length1)
      modifies this`requests
      ensures Valid()
      ensures requests == old(requests) + FrameRequests(frame, GridCells(0, resolution.x - 1, 0, resolution.y - 1), zIndex)
    {
      LoadCells(frame, resolution.x - 1, resolution.y - 1, zIndex);
    }

    /** LoadFrame as a frame load evidently means it: every cell of the grid,
        row by row. The frame must cover the grid. */
    method LoadWholeFrame(frame: Frame, zIndex: int)
      requires Valid() && frame.Valid()
      requires resolution.x == 0 || resolution.y == 0 ||
        (resolution.x <= frame.characters.Length0 && resolution.y <= frame.characters.Length1)
      modifies this`requests
      ensures Valid()
      ensures requests == old(requests) + FrameRequests(frame, GridCells(0, resolution.x, 0, resolution.y), zIndex)
    {
      LoadCells(frame, resolution.x, resolution.y, zIndex);
    }

    /** A fresh copy of the glyphs of the frame buffer. */
    method GetCharacterBuffer() returns (result: array2<string>)
      requires Valid()
      ensures fresh(result) && result.Length0 == resolution.x && result.Length1 == resolution.y
      ensures forall x, y :: 0 <= x < resolution.x && 0 <= y < resolution.y ==> result[x, y] == frameBuffer[x, y].character
    {
      result := new string[resolution.x, resolution.y]((x, y) => "");
      for y := 0 to resolution.y
        invariant forall i, j :: 0 <= i < resolution.x && 0 <= j < y ==> result[i, j] == frameBuffer[i, j].character
      {
        for x := 0 to resolution.x
          invariant forall i, j :: 0 <= i < resolution.x && 0 <= j < y ==> result[i, j] == frameBuffer[i, j].character
          invariant forall i :: 0 <= i < x ==> result[i, y] == frameBuffer[i, y].character
        {
          result[x, y] := frameBuffer[x, y].character;
        }
      }
    }

    /** A fresh copy of the colors of the frame buffer. */
    method GetColorBuffer() returns (result: array2<Color>)
      requires Valid()
      ensures fresh(result) && result.Length0 == resolution.x && result.Length1 == resolution.y
      ensures forall x, y :: 0 <= x < resolution.x && 0 <= y < resolution.y ==> result[x, y] == frameBuffer[x, y].color
    {
      result := new Color[resolution.x, resolution.y]((x, y) => Black);
      for y := 0 to resolution.y
        invariant forall i, j :: 0 <= i < resolution.x && 0 <= j < y ==> result[i, j] == frameBuffer[i, j].color
      {
        for x := 0 to resolution.x
          invariant forall i, j :: 0 <= i < resolution.x && 0 <= j < y ==> result[i, j] == frameBuffer[i, j].color
          invariant forall i :: 0 <= i < x ==> result[i, y] == frameBuffer[i, y].color
        {
          result[x, y] := frameBuffer[x, y].color;
        }
      }
    }

    /** A fresh copy of the priorities of the frame buffer. */
    method GetZIndexBuffer() returns (result: array2<int>)
      requires Valid()
      ensures fresh(result) && result.Length0 == resolution.x && result.Length1 == resolution.y
      ensures forall x, y :: 0 <= x < resolution.x && 0 <= y < resolution.y ==> result[x, y] == frameBuffer[x, y].zIndex
    {
      result := new int[resolution.x, resolution.y]((x, y) => 0);
      for y := 0 to resolution.y
        invariant forall i, j :: 0 <= i < resolution.x && 0 <= j < y ==> result[i, j] == frameBuffer[i, j].zIndex
      {
        for x := 0 to resolution.x
          invariant forall i, j :: 0 <= i < resolution.x && 0 <= j < y ==> result[i, j] == frameBuffer[i, j].zIndex
          invariant forall i :: 0 <= i < x ==> result[i, y] == frameBuffer[i, y].zIndex
        {
          result[x, y] := frameBuffer[x, y].zIndex;
        }
      }
    }

    /** Sets the base color (also the console's foreground color) and the
        empty glyph, clears both buffers to the new blank, queues the blank
        over the grid and redraws. Against the blank back buffer every cell is
        written, so the back buffer ends equal to the frame buffer. */
    method DisplayConfig(color: Color, emptyCharacter: string)
      requires Valid()
      modifies this`baseColor, this`emptyCharacter, this`trace, this`requests, frameBuffer, backBuffer
      ensures Valid() && baseColor == color && this.emptyCharacter == emptyCharacter && requests == []
      ensures forall x, y :: 0 <= x < resolution.x && 0 <= y < resolution.y ==>
        frameBuffer[x, y] == ApplyCell(Pixel(emptyCharacter, color, 0),
          old(requests) + FillQueue(resolution.x, resolution.y, emptyCharacter, color), x, y, emptyCharacter, color)
      ensures Snapshot(backBuffer) == Snapshot(frameBuffer)
      ensures trace == old(trace) + [SetColor(color)] +
        Diff(Snapshot(frameBuffer), Blank(resolution.x, resolution.y, emptyCharacter, color), resolution.x, resolution.y, emptyCharacter) +
        [SetCursor(0, resolution.y + 1)]
      ensures |trace| == |old(trace)| + 3 * resolution.x * resolution.y + 2
    {
      baseColor := color;
      trace := trace + [SetColor(color)];
      this.emptyCharacter := emptyCharacter;
      ClearFrame();
      ghost var blank := Blank(resolution.x, resolution.y, emptyCharacter, color);
      SnapshotOf(backBuffer, blank);
      ghost var configured := trace;
      UpdateDisplay();
      SyncAgainstBlank(Snapshot(frameBuffer), blank, resolution.x, resolution.y, emptyCharacter);
      BlankBackWritesAll(Snapshot(frameBuffer), blank, resolution.x, resolution.y, resolution.y, emptyCharacter);
    }

    /** Sets every cell of both buffers to the blank (empty glyph, base color,
        priority 0), then queues the blank over the whole grid. The queue is
        not emptied. */
    method ClearFrame()
      requires Valid()
      modifies frameBuffer, backBuffer, this`requests
      ensures Valid()
      ensures forall x, y :: 0 <= x < resolution.x && 0 <= y < resolution.y ==>
        frameBuffer[x, y] == Pixel(emptyCharacter, baseColor, 0) && backBuffer[x, y] == Pixel(emptyCharacter, baseColor, 0)
      ensures requests == old(requests) + FillQueue(resolution.x, resolution.y, emptyCharacter, baseColor)
    {
      for y := 0 to resolution.y
        modifies frameBuffer, backBuffer
        invariant forall i, j :: 0 <= i < resolution.x && 0 <= j < y ==>
          frameBuffer[i, j] == Pixel(emptyCharacter, baseColor, 0) && backBuffer[i, j] == Pixel(emptyCharacter, baseColor, 0)
      {
        for x := 0 to resolution.x
          modifies frameBuffer, backBuffer
          invariant forall i, j :: 0 <= i < resolution.x && 0 <= j < y ==>
            frameBuffer[i, j] == Pixel(emptyCharacter, baseColor, 0) && backBuffer[i, j] == Pixel(emptyCharacter, baseColor, 0)
          invariant forall i :: 0 <= i < x ==>
            frameBuffer[i, y] == Pixel(emptyCharacter, baseColor, 0) && backBuffer[i, y] == Pixel(emptyCharacter, baseColor, 0)
        {
          frameBuffer[x, y] := Pixel(emptyCharacter, baseColor, 0);
          backBuffer[x, y] := Pixel(emptyCharacter, baseColor, 0);
        }
      }
      FillFrame(emptyCharacter, baseColor);
    }
  }

  /** One move of DrawLine's walk, with the loop's own variables: e2 = 2 * err
      decides whether x, y or both advance toward p1, and err and the current
      point are updated to match the advanced counters. */
  method Advance(line: Line, dx: int, dy: int, sx: int, sy: int, err: int, current: Point,
                 ghost ix: int, ghost iy: int)
      returns (err': int, current': Point, ghost ix': int, ghost iy': int)
    requires dx == Dx(line) && dy == Dy(line) && sx == Sx(line) && sy == Sy(line)
    requires Reachable(line, ix, iy) && !Done(line, ix, iy)
    requires current == At(line, ix, iy) && err == Err(line, ix, iy)
    ensures (ix', iy') == Step(line, ix, iy)
    ensures current' == At(line, ix', iy') && err' == Err(line, ix', iy')
  {
    LoopStep(line, ix, iy, err, current);
    err', current', ix', iy' := err, current, ix, iy;
    var e2 := 2 * err;
    if e2 > -dy {
      err' := err' - dy;
      current' := Point(current'.x + sx, current'.y);
      ix' := ix' + 1;
    }
    if e2 < dx {
      err' := err' + dx;
      current' := Point(current'.x, current'.y + sy);
      iy' := iy' + 1;
    }
  }
}
