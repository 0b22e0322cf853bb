// Cells, colors, update requests, and the two sequence builders every
// rasterizer is specified with: painting a sequence of points with one style,
// and clipping requests to the grid the way MakeRequest does.
module Pixels {
  import opened Geometry

  /** The console palette; only equality between colors matters to the engine. */
  datatype Color =
    | Black | DarkBlue | DarkGreen | DarkCyan | DarkRed | DarkMagenta | DarkYellow | Gray
    | DarkGray | Blue | Green | Cyan | Red | Magenta | Yellow | White

  /** One cell of a buffer: its glyph (any string), color and priority. */
  datatype Pixel = Pixel(character: string, color: Color, zIndex: int)

  /** A pending paint instruction for the cell (x, y). */
  datatype Request = Request(x: int, y: int, character: string, color: Color, zIndex: int)

  /** The glyph, color and priority a draw call paints with. */
  datatype Style = Style(character: string, color: Color, zIndex: int)

  function RequestAt(p: Point, s: Style): Request
  {
    Request(p.x, p.y, s.character, s.color, s.zIndex)
  }

  /** Whether a request targets a cell of a width x height grid. */
  predicate InBounds(r: Request, width: int, height: int)
  {
    0 <= r.x < width && 0 <= r.y < height
  }

  /** The requests that paint each of `pts`, in order, with style `s`. */
  function Paint(pts: seq<Point>, s: Style): (rs: seq<Request>)
  {
    seq(|pts|, i requires 0 <= i < |pts| => RequestAt(pts[i], s))
  }

  /** The requests of `rs` that MakeRequest keeps, in order: exactly the ones
      inside the grid. */
  function Clip(rs: seq<Request>, width: int, height: int): (kept: seq<Request>)
    ensures |kept| <= |rs|
  {
    if rs == [] then []
    else if InBounds(rs[0], width, height) then [rs[0]] + Clip(rs[1..], width, height)
    else Clip(rs[1..], width, height)
  }

  /** A request survives clipping exactly when it was submitted and is on the grid. */
  lemma {:induction false} ClipMembers(rs: seq<Request>, width: int, height: int, r: Request)
    ensures r in Clip(rs, width, height) <==> r in rs && InBounds(r, width, height)
  {
    if rs != [] {
      ClipMembers(rs[1..], width, height, r);
      assert rs == [rs[0]] + rs[1..];
    }
  }

  /** The requests a rasterizer queues when it submits `pts` in order with style `s`. */
  function Emit(pts: seq<Point>, s: Style, width: int, height: int): seq<Request>
  {
    Clip(Paint(pts, s), width, height)
  }

  lemma {:induction false} ClipAppend(a: seq<Request>, b: seq<Request>, width: int, height: int)
    ensures Clip(a + b, width, height) == Clip(a, width, height) + Clip(b, width, height)
  {
    if a != [] {
      assert (a + b)[1..] == a[1..] + b;
      ClipAppend(a[1..], b, width, height);
    } else {
      assert a + b == b;
    }
  }

  /** What one more MakeRequest of r adds to a queue whose remaining work is the
      clipped requests of rest: afterwards the remaining work is rest's tail. */
  lemma QueueCons(before: seq<Request>, after: seq<Request>, r: Request, rest: seq<Request>, width: int, height: int)
    requires after == before + Clip([r], width, height)
    ensures after + Clip(rest, width, height) == before + Clip([r] + rest, width, height)
  {
    ClipAppend([r], rest, width, height);
  }

  /** Moving the next piece of a queue from the pending part to the done part. */
  lemma Regroup<T>(done: seq<T>, piece: seq<T>, rest: seq<T>, target: seq<T>, after: seq<T>)
    requires done + (piece + rest) == target && after == done + piece
    ensures after + rest == target
  {
  }

  /** A single request is kept exactly when it targets a cell of the grid. */
  lemma ClipSingle(r: Request, width: int, height: int)
    ensures Clip([r], width, height) == if InBounds(r, width, height) then [r] else []
  {
    assert [r][1..] == [];
  }

  /** Clipping drops nothing from a sequence that lies inside the grid. */
  lemma {:induction false} ClipInside(rs: seq<Request>, width: int, height: int)
    requires forall i :: 0 <= i < |rs| ==> InBounds(rs[i], width, height)
    ensures Clip(rs, width, height) == rs
  {
    if rs != [] {
      ClipInside(rs[1..], width, height);
    }
  }

  lemma PaintAppend(a: seq<Point>, b: seq<Point>, s: Style)
    ensures Paint(a + b, s) == Paint(a, s) + Paint(b, s)
  {
  }

  lemma EmitAppend(a: seq<Point>, b: seq<Point>, s: Style, width: int, height: int)
    ensures Emit(a + b, s, width, height) == Emit(a, s, width, height) + Emit(b, s, width, height)
  {
    PaintAppend(a, b, s);
    ClipAppend(Paint(a, s), Paint(b, s), width, height);
  }

  /** Submitting a single point queues it exactly when it is on the grid. */
  lemma EmitSingle(p: Point, s: Style, width: int, height: int)
    ensures Emit([p], s, width, height) ==
      if InBounds(RequestAt(p, s), width, height) then [RequestAt(p, s)] else []
    ensures Emit([], s, width, height) == []
  {
    assert Paint([p], s) == [RequestAt(p, s)];
  }

  /** Emitting a shape made of three or four pieces emits the pieces in turn. */
  lemma EmitAppend3(a: seq<Point>, b: seq<Point>, c: seq<Point>, s: Style, width: int, height: int)
    ensures Emit(a + b + c, s, width, height) ==
      Emit(a, s, width, height) + Emit(b, s, width, height) + Emit(c, s, width, height)
  {
    EmitAppend(a + b, c, s, width, height);
    EmitAppend(a, b, s, width, height);
  }

  lemma EmitAppend4(a: seq<Point>, b: seq<Point>, c: seq<Point>, d: seq<Point>, s: Style, width: int, height: int)
    ensures Emit(a + b + c + d, s, width, height) ==
      Emit(a, s, width, height) + Emit(b, s, width, height) + Emit(c, s, width, height) + Emit(d, s, width, height)
  {
    EmitAppend(a + b + c, d, s, width, height);
    EmitAppend3(a, b, c, s, width, height);
  }

  /** Queueing the requests of a and then those of b queues those of a + b. */
  lemma EmitChain(r0: seq<Request>, r1: seq<Request>, r2: seq<Request>, a: seq<Point>, b: seq<Point>,
                  s: Style, width: int, height: int)
    requires r1 == r0 + Emit(a, s, width, height) && r2 == r1 + Emit(b, s, width, height)
    ensures r2 == r0 + Emit(a + b, s, width, height)
  {
    EmitAppend(a, b, s, width, height);
    assert r0 + Emit(a, s, width, height) + Emit(b, s, width, height) ==
      r0 + (Emit(a, s, width, height) + Emit(b, s, width, height));
  }

  /** When the work still to do is a + b and a step queues a, what is left is b. */
  lemma QueueStep(before: seq<Request>, after: seq<Request>, target: seq<Request>, a: seq<Point>, b: seq<Point>,
                  s: Style, width: int, height: int)
    requires after == before + Emit(a, s, width, height) && before + Emit(a + b, s, width, height) == target
    ensures after + Emit(b, s, width, height) == target
  {
    EmitAppend(a, b, s, width, height);
    assert before + (Emit(a, s, width, height) + Emit(b, s, width, height)) ==
      before + Emit(a, s, width, height) + Emit(b, s, width, height);
  }

  /** Submitting one more point queues it after the others exactly when it is on the grid. */
  lemma EmitSnoc(pts: seq<Point>, p: Point, s: Style, width: int, height: int)
    ensures Emit(pts + [p], s, width, height) ==
      Emit(pts, s, width, height) + if InBounds(RequestAt(p, s), width, height) then [RequestAt(p, s)] else []
  {
    EmitAppend(pts, [p], s, width, height);
    EmitSingle(p, s, width, height);
  }

  /** What one more MakeRequest of point p adds to a queue that so far holds
      the emitted requests of pts. */
  lemma QueueSnoc(done: seq<Request>, before: seq<Request>, after: seq<Request>, pts: seq<Point>, p: Point,
                  s: Style, width: int, height: int)
    requires before == done + Emit(pts, s, width, height)
    requires after == before + Clip([RequestAt(p, s)], width, height)
    ensures after == done + Emit(pts + [p], s, width, height)
  {
    EmitSnoc(pts, p, s, width, height);
    ClipSingle(RequestAt(p, s), width, height);
  }

  /** Every request a rasterizer queues carries the style it was drawn with. */
  lemma EmitStyle(pts: seq<Point>, s: Style, width: int, height: int)
    ensures forall r :: r in Emit(pts, s, width, height) ==>
      InBounds(r, width, height) && r.character == s.character && r.color == s.color && r.zIndex == s.zIndex &&
      Point(r.x, r.y) in pts
  {
    forall r | r in Emit(pts, s, width, height)
      ensures InBounds(r, width, height) && r in Paint(pts, s) && Point(r.x, r.y) in pts
    {
      ClipMembers(Paint(pts, s), width, height, r);
      var i :| 0 <= i < |Paint(pts, s)| && Paint(pts, s)[i] == r;
      assert pts[i] == Point(r.x, r.y);
    }
  }

  /** The cells x0 <= x < x1 of row y, left to right. */
  function Row(x0: int, x1: int, y: int): (row: seq<Point>)
    ensures |row| == if x1 <= x0 then 0 else x1 - x0
    ensures forall i :: 0 <= i < |row| ==> row[i] == Point(x0 + i, y)
    decreases x1 - x0
  {
    if x1 <= x0 then [] else Row(x0, x1 - 1, y) + [Point(x1 - 1, y)]
  }

  /** A row grows by its next cell on the right. */
  lemma RowSnoc(x0: int, x: int, y: int)
    requires x0 <= x
    ensures Row(x0, x + 1, y) == Row(x0, x, y) + [Point(x, y)]
  {
  }

  /** The cells of [x0, x1) x [y0, y1) in row-major order: y outer, x inner,
      as the source's nested loops visit them. */
  function GridCells(x0: int, x1: int, y0: int, y1: int): (cells: seq<Point>)
    ensures |cells| == (if x1 <= x0 then 0 else x1 - x0) * (if y1 <= y0 then 0 else y1 - y0)
    decreases y1 - y0
  {
    if y1 <= y0 then []
    else
      var rows := GridCells(x0, x1, y0, y1 - 1);
      var n := if x1 <= x0 then 0 else x1 - x0;
      assert |rows| + n == n * (y1 - y0) by {
        assert n * (y1 - y0) == n * (y1 - 1 - y0) + n;
      }
      rows + Row(x0, x1, y1 - 1)
  }

  /** The cells grow by one more row at the bottom. */
  lemma GridCellsSnoc(x0: int, x1: int, y0: int, y: int)
    requires y0 <= y
    ensures GridCells(x0, x1, y0, y + 1) == GridCells(x0, x1, y0, y) + Row(x0, x1, y)
  {
  }

  /** A row scan that stops at Max(x0, x1) covers the same cells as one that
      stops at x1; an empty scan covers none. */
  lemma RowScan(x0: int, x1: int, y: int)
    ensures Row(x0, x0, y) == [] && Row(x0, Max(x0, x1), y) == Row(x0, x1, y)
  {
  }

  /** The same for a scan of whole rows. */
  lemma GridScan(x0: int, x1: int, y0: int, y1: int)
    ensures GridCells(x0, x1, y0, y0) == [] && GridCells(x0, x1, y0, Max(y0, y1)) == GridCells(x0, x1, y0, y1)
  {
  }

  /** A cell is visited exactly when it lies in the half-open box. */
  lemma {:induction false} GridCellsMembership(x0: int, x1: int, y0: int, y1: int, p: Point)
    ensures p in GridCells(x0, x1, y0, y1) <==> x0 <= p.x < x1 && y0 <= p.y < y1
    decreases y1 - y0
  {
    if y1 > y0 {
      GridCellsMembership(x0, x1, y0, y1 - 1, p);
      assert p in Row(x0, x1, y1 - 1) <==> x0 <= p.x < x1 && p.y == y1 - 1 by {
        if x0 <= p.x < x1 && p.y == y1 - 1 {
          assert Row(x0, x1, y1 - 1)[p.x - x0] == p;
        }
      }
    }
  }

  /** The k-th visited cell is (x0 + k mod w, y0 + k div w), w = x1 - x0: row-major order. */
  lemma {:induction false} GridCellsAt(x0: int, x1: int, y0: int, y1: int, k: nat)
    requires x0 < x1 && y0 <= y1 && k < (x1 - x0) * (y1 - y0)
    ensures GridCells(x0, x1, y0, y1)[k] == Point(x0 + k % (x1 - x0), y0 + k / (x1 - x0))
    decreases y1 - y0
  {
    var w := x1 - x0;
    var m := w * (y1 - 1 - y0);
    GridCellsSplit(x0, x1, y0, y1);
    if k < m {
      GridCellsAt(x0, x1, y0, y1 - 1, k);
    } else {
      DivModOfMultiple(k, w, y1 - 1 - y0, k - m);
    }
  }

  /** The grid up to row y1 is the grid up to row y1 - 1 followed by row
      y1 - 1, which starts at index (x1 - x0) * (y1 - 1 - y0). */
  lemma GridCellsSplit(x0: int, x1: int, y0: int, y1: int)
    requires x0 < x1 && y0 < y1
    ensures GridCells(x0, x1, y0, y1) == GridCells(x0, x1, y0, y1 - 1) + Row(x0, x1, y1 - 1)
    ensures |GridCells(x0, x1, y0, y1 - 1)| == (x1 - x0) * (y1 - 1 - y0)
    ensures (x1 - x0) * (y1 - y0) == (x1 - x0) * (y1 - 1 - y0) + (x1 - x0)
  {
  }

  lemma DivModOfMultiple(k: int, w: int, q: int, j: int)
    requires w > 0 && 0 <= j < w && k == w * q + j
    ensures k / w == q && k % w == j
  {
    var q', j' := k / w, k % w;
    assert k == q' * w + j';
    assert (q' - q) * w == j - j';
    MulSmall(q' - q, w);
  }
}
