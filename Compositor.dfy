// UpdateDisplay's two phases as functions on buffer values. A buffer is a
// width x height grid indexed [x][y], like the source's Pixel[x, y].
//   apply: the queued requests, in order, overwrite cells under the priority rule;
//   diff:  cells are visited row by row (y outer, x inner) and each cell that
//          changed, or that shows the empty glyph, is written to the console
//          and copied into the back buffer.
module Compositor {
  import opened Pixels

  /** One console call: cursor move, foreground color change, or write. */
  datatype ConsoleEvent = SetCursor(column: int, row: int) | SetColor(color: Color) | Write(glyph: string)

  predicate IsGrid(g: seq<seq<Pixel>>, width: int, height: int)
  {
    |g| == width && forall x :: 0 <= x < width ==> |g[x]| == height
  }

  /** The grid whose every cell is (empty glyph, base color, priority 0). */
  function Blank(width: nat, height: nat, empty: string, base: Color): (g: seq<seq<Pixel>>)
    ensures IsGrid(g, width, height)
    ensures forall x, y :: 0 <= x < width && 0 <= y < height ==> g[x][y] == Pixel(empty, base, 0)
  {
    seq(width, x => seq(height, y => Pixel(empty, base, 0)))
  }

  function PixelOf(r: Request): Pixel
  {
    Pixel(r.character, r.color, r.zIndex)
  }

  predicate Targets(r: Request, x: int, y: int)
  {
    r.x == x && r.y == y
  }

  /** The apply rule: a request replaces the cell when its priority is at
      least the cell's, or when the cell still shows the blank (empty glyph in
      the base color), whatever the cell's priority. */
  predicate Overwrites(cell: Pixel, r: Request, empty: string, base: Color)
  {
    r.zIndex >= cell.zIndex || (cell.character == empty && cell.color == base)
  }

  /** Cell (x, y), starting as c, after the requests rs are applied in order. */
  function ApplyCell(c: Pixel, rs: seq<Request>, x: int, y: int, empty: string, base: Color): Pixel
  {
    if rs == [] then c
    else
      var prev := ApplyCell(c, rs[..|rs| - 1], x, y, empty, base);
      var r := rs[|rs| - 1];
      if Targets(r, x, y) && Overwrites(prev, r, empty, base) then PixelOf(r) else prev
  }

  /** One more request of the queue: cell (x, y) takes it exactly when it
      targets the cell and wins under the apply rule. */
  lemma ApplyCellSnoc(c: Pixel, rs: seq<Request>, i: int, x: int, y: int, empty: string, base: Color)
    requires 0 <= i < |rs|
    ensures var prev := ApplyCell(c, rs[..i], x, y, empty, base);
      ApplyCell(c, rs[..i + 1], x, y, empty, base) ==
        if Targets(rs[i], x, y) && Overwrites(prev, rs[i], empty, base) then PixelOf(rs[i]) else prev
  {
    assert rs[..i + 1][..i] == rs[..i];
  }

  /** Applying two queues one after the other is applying their concatenation. */
  lemma {:induction false} ApplyCellAppend(c: Pixel, a: seq<Request>, b: seq<Request>, x: int, y: int, empty: string, base: Color)
    ensures ApplyCell(c, a + b, x, y, empty, base) == ApplyCell(ApplyCell(c, a, x, y, empty, base), b, x, y, empty, base)
    decreases |b|
  {
    if b == [] {
      assert a + b == a;
    } else {
      var b' := b[..|b| - 1];
      assert (a + b)[..|a + b| - 1] == a + b';
      ApplyCellAppend(c, a, b', x, y, empty, base);
    }
  }

  /** A cell no request targets is left as it was. */
  lemma {:induction false} ApplyCellUntargeted(c: Pixel, rs: seq<Request>, x: int, y: int, empty: string, base: Color)
    requires forall i :: 0 <= i < |rs| ==> !Targets(rs[i], x, y)
    ensures ApplyCell(c, rs, x, y, empty, base) == c
  {
    if rs != [] {
      ApplyCellUntargeted(c, rs[..|rs| - 1], x, y, empty, base);
    }
  }

  /** A cell ends up either as it was or painted by one of the requests that
      target it. */
  lemma {:induction false} ApplyCellOrigin(c: Pixel, rs: seq<Request>, x: int, y: int, empty: string, base: Color)
    ensures var p := ApplyCell(c, rs, x, y, empty, base);
      p == c || exists i :: 0 <= i < |rs| && Targets(rs[i], x, y) && p == PixelOf(rs[i])
  {
    if rs != [] {
      var rs' := rs[..|rs| - 1];
      ApplyCellOrigin(c, rs', x, y, empty, base);
      var prev := ApplyCell(c, rs', x, y, empty, base);
      if prev != c && ApplyCell(c, rs, x, y, empty, base) == prev {
        var i :| 0 <= i < |rs'| && Targets(rs'[i], x, y) && prev == PixelOf(rs'[i]);
        assert rs[i] == rs'[i];
      }
    }
  }

  predicate IsBlank(p: Pixel, empty: string, base: Color)
  {
    p.character == empty && p.color == base
  }

  /** Priority: when the cell does not start blank and no targeting request
      paints the blank, the cell ends with the highest priority seen, at
      least its own and at least every targeting request's. */
  lemma {:induction false} ApplyCellPriority(c: Pixel, rs: seq<Request>, x: int, y: int, empty: string, base: Color)
    requires !IsBlank(c, empty, base)
    requires forall i :: 0 <= i < |rs| && Targets(rs[i], x, y) ==> !IsBlank(PixelOf(rs[i]), empty, base)
    ensures var p := ApplyCell(c, rs, x, y, empty, base);
      !IsBlank(p, empty, base) && p.zIndex >= c.zIndex &&
      forall i :: 0 <= i < |rs| && Targets(rs[i], x, y) ==> p.zIndex >= rs[i].zIndex
  {
    if rs != [] {
      var rs' := rs[..|rs| - 1];
      forall i | 0 <= i < |rs'| && Targets(rs'[i], x, y)
        ensures !IsBlank(PixelOf(rs'[i]), empty, base)
      {
        assert rs'[i] == rs[i];
      }
      ApplyCellPriority(c, rs', x, y, empty, base);
      forall i | 0 <= i < |rs| - 1
        ensures rs[i] == rs'[i]
      {
      }
    }
  }

  /** A queue that only paints the blank at priority 0 leaves a blank grid blank. */
  lemma {:induction false} ApplyCellBlank(rs: seq<Request>, x: int, y: int, empty: string, base: Color)
    requires forall i :: 0 <= i < |rs| ==> PixelOf(rs[i]) == Pixel(empty, base, 0)
    ensures ApplyCell(Pixel(empty, base, 0), rs, x, y, empty, base) == Pixel(empty, base, 0)
  {
    if rs != [] {
      assert PixelOf(rs[|rs| - 1]) == Pixel(empty, base, 0);
      ApplyCellBlank(rs[..|rs| - 1], x, y, empty, base);
    }
  }

  /** The diff rule: a cell is written when its glyph or color differs from
      the back buffer's, or when it shows the empty glyph. */
  predicate Writes(current: Pixel, previous: Pixel, empty: string)
  {
    current.character != previous.character || current.color != previous.color || current.character == empty
  }

  /** Writing one cell: cursor to (2x, y), since each cell is two columns wide,
      then the color, then the glyph. */
  function CellEvents(x: int, y: int, p: Pixel): seq<ConsoleEvent>
  {
    [SetCursor(2 * x, y), SetColor(p.color), Write(p.character)]
  }

  function CellDiff(front: seq<seq<Pixel>>, back: seq<seq<Pixel>>, width: int, height: int, x: int, y: int, empty: string): seq<ConsoleEvent>
    requires IsGrid(front, width, height) && IsGrid(back, width, height)
    requires 0 <= x < width && 0 <= y < height
  {
    if Writes(front[x][y], back[x][y], empty) then CellEvents(x, y, front[x][y]) else []
  }

  /** The console events for cells (0, y) .. (n - 1, y). */
  function DiffRow(front: seq<seq<Pixel>>, back: seq<seq<Pixel>>, width: int, height: int, y: int, n: int, empty: string): seq<ConsoleEvent>
    requires IsGrid(front, width, height) && IsGrid(back, width, height)
    requires 0 <= y < height && 0 <= n <= width
  {
    if n == 0 then []
    else DiffRow(front, back, width, height, y, n - 1, empty) + CellDiff(front, back, width, height, n - 1, y, empty)
  }

  /** The console events for rows 0 .. rows - 1, row-major. */
  function DiffRows(front: seq<seq<Pixel>>, back: seq<seq<Pixel>>, width: int, height: int, rows: int, empty: string): seq<ConsoleEvent>
    requires IsGrid(front, width, height) && IsGrid(back, width, height)
    requires 0 <= rows <= height
  {
    if rows == 0 then []
    else DiffRows(front, back, width, height, rows - 1, empty) + DiffRow(front, back, width, height, rows - 1, width, empty)
  }

  /** One more cell of a row: the trace after visiting cell (x, y). */
  lemma DiffRowStep(front: seq<seq<Pixel>>, back: seq<seq<Pixel>>, width: int, height: int, y: int, x: int, empty: string,
                    start: seq<ConsoleEvent>, before: seq<ConsoleEvent>, after: seq<ConsoleEvent>)
    requires IsGrid(front, width, height) && IsGrid(back, width, height)
    requires 0 <= y < height && 0 <= x < width
    requires before == start + DiffRow(front, back, width, height, y, x, empty)
    requires after == if Writes(front[x][y], back[x][y], empty) then before + CellEvents(x, y, front[x][y]) else before
    ensures after == start + DiffRow(front, back, width, height, y, x + 1, empty)
  {
  }

  /** One more row: the trace after visiting row y. */
  lemma DiffRowsStep(front: seq<seq<Pixel>>, back: seq<seq<Pixel>>, width: int, height: int, y: int, empty: string,
                     start: seq<ConsoleEvent>, before: seq<ConsoleEvent>, after: seq<ConsoleEvent>)
    requires IsGrid(front, width, height) && IsGrid(back, width, height)
    requires 0 <= y < height
    requires before == start + DiffRows(front, back, width, height, y, empty)
    requires after == before + DiffRow(front, back, width, height, y, width, empty)
    ensures after == start + DiffRows(front, back, width, height, y + 1, empty)
  {
  }

  function Diff(front: seq<seq<Pixel>>, back: seq<seq<Pixel>>, width: nat, height: nat, empty: string): seq<ConsoleEvent>
    requires IsGrid(front, width, height) && IsGrid(back, width, height)
  {
    DiffRows(front, back, width, height, height, empty)
  }

  /** A back-buffer cell after the diff visits it: the front cell when the
      cell is written, its old value otherwise; glyph and color match the front. */
  function Synced(current: Pixel, previous: Pixel, empty: string): (p: Pixel)
    ensures p.character == current.character && p.color == current.color
  {
    if Writes(current, previous, empty) then current else previous
  }

  function Sync(front: seq<seq<Pixel>>, back: seq<seq<Pixel>>, width: nat, height: nat, empty: string): (synced: seq<seq<Pixel>>)
    requires IsGrid(front, width, height) && IsGrid(back, width, height)
    ensures IsGrid(synced, width, height)
    ensures forall x, y :: 0 <= x < width && 0 <= y < height ==> synced[x][y] == Synced(front[x][y], back[x][y], empty)
    ensures forall x, y :: 0 <= x < width && 0 <= y < height ==>
      synced[x][y].character == front[x][y].character && synced[x][y].color == front[x][y].color
  {
    seq(width, x requires 0 <= x < width =>
      seq(height, y requires 0 <= y < height => Synced(front[x][y], back[x][y], empty)))
  }

  /** Two back buffers that the write rule cannot tell apart produce the same events. */
  lemma {:induction false} DiffRowCongruent(front: seq<seq<Pixel>>, b1: seq<seq<Pixel>>, b2: seq<seq<Pixel>>,
                                            width: int, height: int, y: int, n: int, empty: string)
    requires IsGrid(front, width, height) && IsGrid(b1, width, height) && IsGrid(b2, width, height)
    requires 0 <= y < height && 0 <= n <= width
    requires forall x :: 0 <= x < width ==> Writes(front[x][y], b1[x][y], empty) == Writes(front[x][y], b2[x][y], empty)
    ensures DiffRow(front, b1, width, height, y, n, empty) == DiffRow(front, b2, width, height, y, n, empty)
  {
    if n > 0 {
      DiffRowCongruent(front, b1, b2, width, height, y, n - 1, empty);
    }
  }

  lemma {:induction false} DiffRowsCongruent(front: seq<seq<Pixel>>, b1: seq<seq<Pixel>>, b2: seq<seq<Pixel>>,
                                             width: int, height: int, rows: int, empty: string)
    requires IsGrid(front, width, height) && IsGrid(b1, width, height) && IsGrid(b2, width, height)
    requires 0 <= rows <= height
    requires forall x, y :: 0 <= x < width && 0 <= y < height ==>
      Writes(front[x][y], b1[x][y], empty) == Writes(front[x][y], b2[x][y], empty)
    ensures DiffRows(front, b1, width, height, rows, empty) == DiffRows(front, b2, width, height, rows, empty)
  {
    if rows > 0 {
      var y := rows - 1;
      DiffRowsCongruent(front, b1, b2, width, height, y, empty);
      assert forall x :: 0 <= x < width ==> Writes(front[x][y], b1[x][y], empty) == Writes(front[x][y], b2[x][y], empty);
      DiffRowCongruent(front, b1, b2, width, height, y, width, empty);
    }
  }

  /** Redrawing against the synced back buffer writes exactly what a diff of
      the front against itself writes: only the cells showing the empty glyph. */
  lemma ResyncWritesOnlyEmpty(front: seq<seq<Pixel>>, back: seq<seq<Pixel>>, width: nat, height: nat, empty: string)
    requires IsGrid(front, width, height) && IsGrid(back, width, height)
    ensures Diff(front, Sync(front, back, width, height, empty), width, height, empty) == Diff(front, front, width, height, empty)
    ensures forall x, y :: 0 <= x < width && 0 <= y < height ==>
      (Writes(front[x][y], front[x][y], empty) <==> front[x][y].character == empty)
  {
    DiffRowsCongruent(front, Sync(front, back, width, height, empty), front, width, height, height, empty);
  }

  /** With no cell showing the empty glyph, a front buffer diffed against
      itself writes nothing. */
  lemma {:induction false} SelfDiffRowSilent(front: seq<seq<Pixel>>, width: int, height: int, y: int, n: int, empty: string)
    requires IsGrid(front, width, height) && 0 <= y < height && 0 <= n <= width
    requires forall x, y :: 0 <= x < width && 0 <= y < height ==> front[x][y].character != empty
    ensures DiffRow(front, front, width, height, y, n, empty) == []
  {
    if n > 0 {
      SelfDiffRowSilent(front, width, height, y, n - 1, empty);
    }
  }

  lemma {:induction false} SelfDiffSilent(front: seq<seq<Pixel>>, width: nat, height: nat, rows: int, empty: string)
    requires IsGrid(front, width, height) && 0 <= rows <= height
    requires forall x, y :: 0 <= x < width && 0 <= y < height ==> front[x][y].character != empty
    ensures DiffRows(front, front, width, height, rows, empty) == []
  {
    if rows > 0 {
      SelfDiffSilent(front, width, height, rows - 1, empty);
      SelfDiffRowSilent(front, width, height, rows - 1, width, empty);
    }
  }

  /** Against a back buffer of empty glyphs every cell is written: a changed
      glyph differs from the empty one, and an unchanged one is empty. */
  lemma {:induction false} BlankBackRowWritesAll(front: seq<seq<Pixel>>, back: seq<seq<Pixel>>, width: int, height: int,
                                                 y: int, n: int, empty: string)
    requires IsGrid(front, width, height) && IsGrid(back, width, height) && 0 <= y < height && 0 <= n <= width
    requires forall x :: 0 <= x < width ==> back[x][y].character == empty
    ensures |DiffRow(front, back, width, height, y, n, empty)| == 3 * n
  {
    if n > 0 {
      BlankBackRowWritesAll(front, back, width, height, y, n - 1, empty);
      assert Writes(front[n - 1][y], back[n - 1][y], empty);
      assert |CellDiff(front, back, width, height, n - 1, y, empty)| == 3;
    }
  }

  lemma {:induction false} BlankBackWritesAll(front: seq<seq<Pixel>>, back: seq<seq<Pixel>>, width: nat, height: nat,
                                              rows: int, empty: string)
    requires IsGrid(front, width, height) && IsGrid(back, width, height) && 0 <= rows <= height
    requires forall x, y :: 0 <= x < width && 0 <= y < height ==> back[x][y].character == empty
    ensures |DiffRows(front, back, width, height, rows, empty)| == 3 * width * rows
  {
    if rows > 0 {
      BlankBackWritesAll(front, back, width, height, rows - 1, empty);
      BlankBackRowWritesAll(front, back, width, height, rows - 1, width, empty);
      assert 3 * width * rows == 3 * width * (rows - 1) + 3 * width;
    }
  }

  /** Against a back buffer of empty glyphs every cell is written, so the
      synced back buffer is the front buffer itself. */
  lemma SyncAgainstBlank(front: seq<seq<Pixel>>, back: seq<seq<Pixel>>, width: nat, height: nat, empty: string)
    requires IsGrid(front, width, height) && IsGrid(back, width, height)
    requires forall x, y :: 0 <= x < width && 0 <= y < height ==> back[x][y].character == empty
    ensures Sync(front, back, width, height, empty) == front
  {
    var synced := Sync(front, back, width, height, empty);
    forall x | 0 <= x < width
      ensures synced[x] == front[x]
    {
      forall y | 0 <= y < height
        ensures synced[x][y] == front[x][y]
      {
        assert Writes(front[x][y], back[x][y], empty);
      }
    }
  }
}
