// Frame: a snapshot of glyphs and colors, deep-copied from two source arrays,
// and the requests that loading it onto the display queues.
module Frames {
  import opened Geometry
  import opened Pixels

  class Frame {
    const characters: array2<string>
    const colors: array2<Color>

    /** Both arrays have the dimensions of the glyph source they were copied from. */
    ghost predicate Valid()
      reads this
    {
      characters.Length0 == colors.Length0 && characters.Length1 == colors.Length1
    }

    /** Copies every cell of the glyph source, and the same cells of the color
        source, into fresh arrays sized like the glyph source. */
    constructor (sourceChars: array2<string>, sourceColors: array2<Color>)
      requires sourceChars.Length0 <= sourceColors.Length0 && sourceChars.Length1 <= sourceColors.Length1
      ensures Valid() && fresh(characters) && fresh(colors)
      ensures characters.Length0 == sourceChars.Length0 && characters.Length1 == sourceChars.Length1
      ensures forall x, y :: 0 <= x < characters.Length0 && 0 <= y < characters.Length1 ==>
        characters[x, y] == sourceChars[x, y] && colors[x, y] == sourceColors[x, y]
    {
      var width := sourceChars.Length0;
      var height := sourceChars.Length1;
      var chars := new string[width, height]((x, y) => "");
      var cols := new Color[width, height]((x, y) => Black);
      for x := 0 to width
        invariant forall i, j :: 0 <= i < x && 0 <= j < height ==>
          chars[i, j] == sourceChars[i, j] && cols[i, j] == sourceColors[i, j]
      {
        for y := 0 to height
          invariant forall i, j :: 0 <= i < x && 0 <= j < height ==>
            chars[i, j] == sourceChars[i, j] && cols[i, j] == sourceColors[i, j]
          invariant forall j :: 0 <= j < y ==> chars[x, j] == sourceChars[x, j] && cols[x, j] == sourceColors[x, j]
        {
          chars[x, y] := sourceChars[x, y];
          cols[x, y] := sourceColors[x, y];
        }
      }
      characters := chars;
      colors := cols;
    }

    predicate Contains(p: Point)
      reads this
    {
      0 <= p.x < characters.Length0 && 0 <= p.y < characters.Length1 &&
      0 <= p.x < colors.Length0 && 0 <= p.y < colors.Length1
    }
  }

  /** The request that loads cell p of the frame: its glyph and color at the
      given priority. Cells outside the frame are never asked for. */
  function CellRequest(frame: Frame, p: Point, zIndex: int): Request
    reads frame, frame.characters, frame.colors
  {
    if frame.Contains(p) then Request(p.x, p.y, frame.characters[p.x, p.y], frame.colors[p.x, p.y], zIndex)
    else Request(p.x, p.y, "", Black, zIndex)
  }

  /** The requests loading the cells `cells` of the frame, in order. */
  function FrameRequests(frame: Frame, cells: seq<Point>, zIndex: int): (rs: seq<Request>)
    reads frame, frame.characters, frame.colors
  {
    seq(|cells|, i requires 0 <= i < |cells| reads frame, frame.characters, frame.colors =>
      CellRequest(frame, cells[i], zIndex))
  }

  lemma FrameRequestsAppend(frame: Frame, a: seq<Point>, b: seq<Point>, zIndex: int)
    ensures FrameRequests(frame, a + b, zIndex) == FrameRequests(frame, a, zIndex) + FrameRequests(frame, b, zIndex)
  {
  }

  /** One more loaded cell: an in-grid cell's request survives clipping. */
  lemma FrameQueueSnoc(done: seq<Request>, before: seq<Request>, after: seq<Request>, frame: Frame, cells: seq<Point>,
                       p: Point, zIndex: int, width: int, height: int)
    requires before == done + FrameRequests(frame, cells, zIndex)
    requires after == before + Clip([CellRequest(frame, p, zIndex)], width, height)
    requires 0 <= p.x < width && 0 <= p.y < height
    ensures after == done + FrameRequests(frame, cells + [p], zIndex)
  {
    ClipSingle(CellRequest(frame, p, zIndex), width, height);
    FrameRequestsAppend(frame, cells, [p], zIndex);
    assert FrameRequests(frame, [p], zIndex) == [CellRequest(frame, p, zIndex)];
  }

  /** Loading a block of cells and then another loads their concatenation. */
  lemma FrameChain(r0: seq<Request>, r1: seq<Request>, r2: seq<Request>, frame: Frame, a: seq<Point>, b: seq<Point>,
                   zIndex: int)
    requires r1 == r0 + FrameRequests(frame, a, zIndex) && r2 == r1 + FrameRequests(frame, b, zIndex)
    ensures r2 == r0 + FrameRequests(frame, a + b, zIndex)
  {
    FrameRequestsAppend(frame, a, b, zIndex);
  }

  /** LoadFrame as written loads the cells [0, width - 1) x [0, height - 1):
      (width - 1) * (height - 1) requests, none in the last column or the last
      row, so fewer than the width * height cells of the grid. */
  lemma LoadFrameMissesEdges(frame: Frame, width: int, height: int, zIndex: int)
    requires width >= 1 && height >= 1
    ensures var rs := FrameRequests(frame, GridCells(0, width - 1, 0, height - 1), zIndex);
      |rs| == (width - 1) * (height - 1) < width * height &&
      forall r :: r in rs ==> 0 <= r.x < width - 1 && 0 <= r.y < height - 1
  {
    var cells := GridCells(0, width - 1, 0, height - 1);
    var rs := FrameRequests(frame, cells, zIndex);
    forall r | r in rs
      ensures 0 <= r.x < width - 1 && 0 <= r.y < height - 1
    {
      var i :| 0 <= i < |rs| && rs[i] == r;
      GridCellsMembership(0, width - 1, 0, height - 1, cells[i]);
    }
    assert |rs| == |cells| == (width - 1) * (height - 1);
    SmallerGrid(width, height);
  }

  lemma SmallerGrid(width: int, height: int)
    requires width >= 1 && height >= 1
    ensures (width - 1) * (height - 1) < width * height
  {
    assert (width - 1) * (height - 1) == width * height - width - height + 1;
  }

  /** Loading the whole grid queues width * height requests, and the request
      for a cell is queued exactly when the cell is on the grid. */
  lemma LoadWholeFrameCovers(frame: Frame, width: int, height: int, zIndex: int, p: Point)
    requires width >= 0 && height >= 0
    ensures var rs := FrameRequests(frame, GridCells(0, width, 0, height), zIndex);
      |rs| == width * height &&
      (CellRequest(frame, p, zIndex) in rs <==> 0 <= p.x < width && 0 <= p.y < height)
  {
    var cells := GridCells(0, width, 0, height);
    var rs := FrameRequests(frame, cells, zIndex);
    GridCellsMembership(0, width, 0, height, p);
    if CellRequest(frame, p, zIndex) in rs {
      var i :| 0 <= i < |rs| && rs[i] == CellRequest(frame, p, zIndex);
      assert cells[i] == p;
    }
    if p in cells {
      var i :| 0 <= i < |cells| && cells[i] == p;
      assert rs[i] == CellRequest(frame, p, zIndex);
    }
  }
}
