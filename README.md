# UTF8_Display renderer, modelled in Dafny

`Display.cs` is a character-grid renderer for the console. Drawing calls
(lines, rectangles, triangles, quads, circles, text, whole frames) do not touch
the screen. Each one appends `DisplayUpdateRequest`s to a queue through
`MakeRequest`, which silently drops requests outside the grid.

`UpdateDisplay` then works in two phases:
- It applies the queue to the front buffer (`frameBuffer`) under a priority
  rule: a request wins when its zIndex is at least the cell's, or when the
  cell still shows the blank.
- It diffs the front buffer against the back buffer row by row. It writes
  every cell that changed, or that shows the empty glyph, to the console and
  copies it into the back buffer.

This project models that core and proves what it does.

Layout, one module per file:

- `Geometry.dfy`: `Point` and the shapes as datatypes.
  - The Point operators use C#'s truncating integer division (`TruncDiv`).
  - Also here: `GetMidpoint` and the four `GetBoundingBox`es, whose
    rectangle is `(xMin, yMax)`–`(xMax, yMin)`.
- `Barycentric.dfy`: `CalculateBarycentric` and `IsInsideTriangle` over exact
  reals, with an equivalent integer sign test.
- `Pixels.dfy`:
  - The 16-value `Color` palette, `Pixel`, `Request`, and the clipping rule
    of `MakeRequest` (`Clip`).
  - The row-major cell order of the source's nested loops (`GridCells`).
- `Lines.dfy`: Bresenham's walk as a function of the two step counters, the
  cells `DrawLine` submits, and the walk's properties.
- `Polygons.dfy`, `Circles.dfy`, `Text.dfy`: the cell sequences the
  rectangle, triangle, quad, circle and text calls submit, in submission
  order.
- `Compositor.dfy`: the apply rule (`ApplyCell`), the diff rule (`Writes`,
  `Diff`) and the back-buffer sync (`Sync`), as functions on buffer values.
- `Frames.dfy`: the `Frame` class (deep copy of two arrays) and the requests
  that loading a frame queues.
- `DisplayEngine.dfy`: the `Display` class.
  - Its fields are the resolution, the queue (`requests`), both buffers
    (`array2<Pixel>`), the empty glyph and the base color.
  - The console output is a ghost `trace` of cursor / color / write events.
  - Every method keeps the source's loops and is proved against the
    functions above. A drawing call appends exactly
    `Clip(<its cell sequence painted with its style>)`.
  - `UpdateDisplay` leaves each cell equal to `ApplyCell` of the old queue,
    the back buffer equal to `Sync`, and the trace extended by `Diff`
    followed by the final cursor move.

`DrawText` wraps to column 0 (`index = -p0.x`, Display.cs:527), not back to
the start column.

## Model

| member | source | states |
|---|---|---|
| Geometry.TruncDiv | Display.cs:41-44 | C#'s int `/`: the remainder is smaller than the divisor and has the dividend's sign; the product never exceeds the dividend in magnitude |
| Geometry.TruncDivUnique | Display.cs:41-44 | those remainder conditions determine the quotient uniquely |
| Geometry.TruncDivOdd | Display.cs:41-44 | negating the dividend negates the quotient (rounding toward zero is symmetric) |
| Geometry.TruncDivExample | Display.cs:41-44 | -7 / 2 is -3 in C#, where Dafny's Euclidean division gives -4 |
| Geometry.AddSubInverse | Display.cs:29-36 | point `-` undoes `+` in both orders, and `+` commutes |
| Geometry.Mul | Display.cs:37-40 | dividing a componentwise product by a factor with nonzero components gives back the other factor |
| Geometry.Div | Display.cs:41-44 | each component is the truncated quotient: the remainder is below the divisor and the product is not above the dividend |
| Geometry.GetMidpoint | Display.cs:17-20 | the midpoint lies between the endpoints in each coordinate; the sum minus twice the midpoint is 0 or ±1 with the sum's sign, so odd sums round toward zero |
| Geometry.MidpointUnique | Display.cs:17-20 | a point whose doubled coordinates differ from the sums by at most 1, with the sums' signs, is the midpoint: the contract fixes C#'s rounding |
| Geometry.MidpointStraddlingZero | Display.cs:17-20 | the midpoint of (-1,0) and (4,0) is (1,0), rounding toward zero |
| Geometry.MidpointSymmetric | Display.cs:17-20 | the midpoint does not depend on the order of the endpoints |
| Geometry.MidpointOfSelf | Display.cs:17-20 | the midpoint of p and p is p |
| Geometry.LineBoundingBox | Display.cs:95-103 | the box `(xMin, yMax)`–`(xMax, yMin)` covers both endpoints, and each side passes through an endpoint coordinate |
| Geometry.TriangleBoundingBox | Display.cs:119-127 | the box covers all three vertices and is tight |
| Geometry.QuadBoundingBox | Display.cs:156-164 | the box covers all four vertices and is tight |
| Geometry.CircleBoundingBox | Display.cs:178-186 | the box is centred on the center, 2r wide and high, and for r ≥ 0 covers the four axis extremes of the circle |
| Barycentric.CalculateBarycentric | Display.cs:612-624 | a degenerate triangle gives [-1, -1, -1]; otherwise the three weights sum to 1 and reconstruct the query point from the vertices |
| Barycentric.Reconstruction | Display.cs:614-620 | the integer numerators, weighted by the vertex offsets, equal the denominator times the query offset |
| Barycentric.InsideIffSigns | Display.cs:634-639 | the inside test (all three weights ≥ 0) holds exactly when an integer sign test on numerators and denominator holds |
| Barycentric.DegenerateContainsNothing | Display.cs:612-639 | when the denominator is 0, no point is inside |
| Barycentric.VerticesInside | Display.cs:612-639 | for a non-degenerate triangle, each vertex has weights (1,0,0), (0,1,0), (0,0,1) and is inside |
| Barycentric.RotationInvariant | Display.cs:612-639 | rotating the vertices (p0,p1,p2) to (p1,p2,p0) does not change the inside test |
| Pixels.ClipMembers | Display.cs:320-324 | a request survives the queue's bounds check exactly when it was submitted and lies in [0,width)×[0,height) |
| Pixels.ClipSingle | Display.cs:320-324 | one request is kept exactly when it is in bounds, and is dropped otherwise |
| Pixels.ClipAppend | Display.cs:320-324 | clipping a concatenation clips each part, so submitting one by one equals clipping the whole sequence |
| Pixels.ClipInside | Display.cs:320-324 | a sequence of in-bounds requests is kept whole |
| Pixels.EmitStyle | Display.cs:320-324 | every kept request is in bounds, targets a submitted point, and carries the call's glyph, color and zIndex |
| Pixels.GridCellsMembership | Display.cs:387-393 | the nested y-outer, x-inner loops visit exactly the points of the half-open box [x0,x1)×[y0,y1) |
| Pixels.GridCellsAt | Display.cs:287-291 | the k-th cell visited is (x0 + k mod w, y0 + k div w): row-major order |
| Lines.Step | Display.cs:351-363 | from an unfinished state, x, y or both advance by one step toward p1, never past it |
| Lines.AtEnd | Display.cs:343-349 | the walk is at p1 exactly when both step counters are exhausted, and at p0 exactly at the start |
| Lines.LoopStep | Display.cs:351-363 | the source's `e2 = 2*err` update of err and current matches the counter step, the accumulator and the position |
| Lines.PathFromShape | Display.cs:341-364 | the walk ends at p1, every move is a king step (8-connected), it stays in the bounding box, and p0 and p1 appear only at the ends |
| Lines.PathShape | Display.cs:341-364 | the whole path runs p0…p1 by king steps within the bounding box; a point line is [p0]; otherwise the interior is the path minus its ends |
| Lines.InteriorMembers | Display.cs:343-346 | the walk queues exactly the path points that are neither endpoint |
| Lines.LineQueue | Display.cs:326-365 | DrawLine's queue is p0 then p1 (each when on the grid) followed by the walk's interior points that are on the grid |
| Lines.LineStartsWithEndpoints | Display.cs:328-329 | for an on-grid line the first two queued requests are p0 and p1 |
| Lines.LineOnGrid | Display.cs:326-365 | an on-grid line loses nothing to clipping; it queues 2 requests for a point line and otherwise one per path cell |
| Lines.DiagonalOnGrid | Display.cs:326-365 | a diagonal line queues dx+1 requests, the k-th of them (k ≥ 2) at step k-1 of the walk |
| Lines.MainDiagonal | Display.cs:326-365 | the line (0,0)–(n-1,n-1) on an n×n grid queues n requests, the k-th (k ≥ 2) at (k-1, k-1) |
| Polygons.RectCellsPieces | Display.cs:368-395 | the rectangle's cells are the four min/max corner lines in order, then, with fill, the strict interior row by row |
| Polygons.RectCornerOrder | Display.cs:370-378 | the queued cells depend only on the min/max of the corners: swapping them, or using the other diagonal, gives the same sequence |
| Polygons.RectFillExact | Display.cs:385-394 | the fill covers exactly the cells with xMin < x < xMax and yMin < y < yMax |
| Polygons.RectFillExample | Display.cs:385-394 | filling (2,2)–(5,5) queues (3,3), (4,3), (3,4), (4,4), in that order |
| Polygons.AxisLinePoints | Display.cs:326-365 | an axis-aligned line covers exactly the cells of its bounding box |
| Polygons.RectEdgesExact | Display.cs:380-383 | the four edges cover exactly the border cells of the min/max box |
| Polygons.InsideOf | Display.cs:406-415 | the triangle filter keeps exactly the scanned points that pass IsInsideTriangle |
| Polygons.TriangleFillBox | Display.cs:401-415 | DrawTriangle's Max(Max()) box and the bounding-box function scan the same cells |
| Polygons.TriangleFillExact | Display.cs:406-415 | a cell is filled exactly when it lies in the half-open box [xMin,xMax)×[yMin,yMax) and passes IsInsideTriangle |
| Polygons.DegenerateFillsNothing | Display.cs:397-415 | a degenerate triangle fills no cell |
| Polygons.QuadFillExact | Display.cs:430-463 | a cell is in the quad fill exactly when it lies in the half-open box of (p0,p1,p2) and passes that triangle's inside test, or lies in the half-open box of (p2,p3,p0) and passes that one's; every cell of the second is inside the triangle (p0,p2,p3) |
| Text.TextFromStep | Display.cs:522-536 | one character: wrap when the column reaches the width, then queue the glyph at (p0.x+index, p0.y+lineOffset) when the guard holds, else skip it without advancing |
| Text.TextFromLength | Display.cs:516-537 | from a row on the grid and a column not past the edge, every character yields one request |
| Text.TextFromAt | Display.cs:516-537 | the j-th request is the j-th character at its wrapped place |
| Text.TextLayout | Display.cs:516-537 | from an on-grid start, the text yields one request per character; character j goes to column p0.x + j on the first row, and wraps to column 0 of later rows |
| Text.TextFromOffGrid | Display.cs:530 | a start row below the grid, or a start column past the width, queues nothing |
| Circles.Next | Display.cs:558-568 | each iteration moves y up by one and x down by at most one |
| Circles.StatesFromShape | Display.cs:545-569 | the k-th plotted state has y = k and y ≤ x ≤ radius, so the loop ends |
| Circles.NegativeRadius | Display.cs:541-545 | a negative radius plots nothing; radius ≥ 0 plots first from (radius, 0) |
| Circles.StatesStep | Display.cs:545-569 | consecutive plotted states are related by the loop's update |
| Circles.NextTracks | Display.cs:558-568 | the decision variable keeps tracking (y+1)² + x² − x − r² |
| Circles.StatesNearCircle | Display.cs:539-570 | every plotted (x, y) satisfies r² − x ≤ x² + y² ≤ r² + x: within half a cell of the circle |
| Circles.SpanUpToExact | Display.cs:583-590 | FillCircleLine covers exactly the columns center.x−x … center.x+x of rows center.y ± y |
| Circles.OutlineBlocks | Display.cs:553-556 | unfilled, iteration k queues exactly the 8 reflections of its state, in PlotCirclePoints' order |
| Circles.OutlineNearCircle | Display.cs:539-602 | every outline cell is a reflection of a plotted state near the circle |
| Circles.DrawCircleDropsDepth | Display.cs:550-555 | every request DrawCircle queues has zIndex 0, so a nonzero zIndex argument is never honoured |
| Circles.DrawCircleDepthExample | Display.cs:550-555 | radius 0 at (1,1) on a 3×3 grid queues (1,1) at priority 0 |
| Circles.DrawCircleAtDepthKeepsDepth | Display.cs:539-602 | with zIndex passed on, every queued request carries the caller's glyph, color and zIndex |
| Compositor.Blank | Display.cs:265-281 | the blank grid holds (empty glyph, base color, 0) in every cell |
| Compositor.ApplyCellUntargeted | Display.cs:226-235 | requests for other cells leave a cell unchanged |
| Compositor.ApplyCellOrigin | Display.cs:226-235 | after applying, a cell is its old value or the pixel of a request that targets it |
| Compositor.ApplyCellPriority | Display.cs:226-235 | a non-blank cell under requests that never paint the blank stays non-blank, and its zIndex ends at least its own and at least every targeting request's |
| Compositor.ApplyCellBlank | Display.cs:226-235 | a queue that paints only the blank at priority 0 leaves a blank cell blank |
| Compositor.Synced | Display.cs:242-251 | the back-buffer cell after the diff has the front cell's glyph and color |
| Compositor.Sync | Display.cs:237-256 | after the diff every back-buffer cell is the synced cell, with the front buffer's glyph and color |
| Compositor.ResyncWritesOnlyEmpty | Display.cs:237-256 | a second diff against the synced back buffer emits what a diff of the front buffer against itself emits, which writes a cell exactly when it shows the empty glyph |
| Compositor.SelfDiffSilent | Display.cs:237-256 | when no cell shows the empty glyph, a diff of a buffer against itself writes nothing |
| Compositor.BlankBackWritesAll | Display.cs:237-256 | against a back buffer of empty glyphs every cell is written: 3 events per cell |
| Compositor.SyncAgainstBlank | Display.cs:237-256 | against a back buffer of empty glyphs the synced back buffer equals the front buffer |
| Frames.Frame.constructor | Display.cs:194-209 | fresh arrays sized like the glyph source, holding a copy of every glyph and the color at the same cell |
| Frames.LoadFrameMissesEdges | Display.cs:572-581 | LoadFrame as written queues (w−1)(h−1) < w·h requests, none in the last column or the last row |
| Frames.LoadWholeFrameCovers | Display.cs:572-581 | loading the whole grid queues w·h requests, and a cell's request is queued exactly when the cell is on the grid |
| DisplayEngine.FillQueueShape | Display.cs:283-292 | FillFrame's queue has w·h requests; the k-th is (k mod w, k div w) with the given glyph and color at priority 0, in bounds |
| DisplayEngine.FillQueueInBounds | Display.cs:283-292 | painting and clipping every grid cell, row-major, gives exactly the fill queue: bounds checking drops nothing |
| DisplayEngine.MidpointAdvance | Display.cs:558-568 | the loop's update of x, y and decisionOver2 is the step function Next |
| DisplayEngine.Advance | Display.cs:351-363 | one iteration of DrawLine's loop advances the counters by Step and keeps current = At and err = Err |
| DisplayEngine.Display.constructor | Display.cs:309-314 | both buffers are w×h and hold the default cell (no glyph, first palette color, 0); the queue is empty |
| DisplayEngine.Display.MakeRequest | Display.cs:320-324 | the queue grows by the request when it is in bounds and is unchanged otherwise; every queued request stays in bounds |
| DisplayEngine.Display.DrawLine | Display.cs:326-365 | appends the clipped requests of p0, p1 and the walk's interior, in that order |
| DisplayEngine.Display.Walk | Display.cs:339-364 | the `while (true)` loop appends exactly the walk's clipped interior requests |
| DisplayEngine.Display.FillBox | Display.cs:385-394 | the nested loops append the clipped requests of [x0,x1)×[y0,y1), row by row |
| DisplayEngine.Display.DrawRectangle | Display.cs:368-395 | appends the clipped requests of the rectangle's cells (four edges, then the interior when filled) |
| DisplayEngine.Display.FillFrame | Display.cs:283-292 | appends the fill queue: every cell, row-major, in the given glyph and color at priority 0 |
| DisplayEngine.Display.FillTriangle | Display.cs:406-415 | the fill loops append the clipped requests of the scanned cells that pass IsInsideTriangle |
| DisplayEngine.Display.FillTriangleRow | Display.cs:408-414 | one row of the fill loops appends the clipped requests of the row's cells inside the triangle |
| DisplayEngine.Display.DrawTriangle | Display.cs:397-421 | appends the clipped fill (when filled), then the three edges |
| DisplayEngine.Display.DrawQuad | Display.cs:423-464 | appends the four edges, then (when filled) the fills of (p0,p1,p2) and (p2,p3,p0) |
| DisplayEngine.Display.DrawText | Display.cs:516-537 | appends the clipped requests of the wrapped text layout |
| DisplayEngine.Display.PlotCirclePoints | Display.cs:592-602 | appends the clipped requests of the 8 reflections, in the source's order |
| DisplayEngine.Display.FillCircleLine | Display.cs:583-590 | appends the clipped requests of the span, column by column, row center.y+y before center.y−y |
| DisplayEngine.Display.CircleWalk | Display.cs:541-569 | the midpoint loop appends the clipped requests of every plotted state's block |
| DisplayEngine.Display.PlotBlock | Display.cs:547-556 | one iteration appends the two spans when filling, the 8 reflections otherwise |
| DisplayEngine.Display.DrawCircle | Display.cs:539-570 | as written: appends the clipped circle cells painted at priority 0, whatever the zIndex argument |
| DisplayEngine.Display.DrawCircleAtDepth | Display.cs:539-570 | corrected: appends the clipped circle cells painted at the given zIndex |
| DisplayEngine.Display.ApplyQueue | Display.cs:226-235 | every cell becomes ApplyCell of its old value and the queue; only frameBuffer changes |
| DisplayEngine.Display.RedrawRow | Display.cs:239-254 | row y: the trace grows by the row's diff events, row y of the back buffer is synced, other rows are unchanged |
| DisplayEngine.Display.Redraw | Display.cs:237-255 | the trace grows by the row-major diff, and the back buffer becomes Sync(front, old back) |
| DisplayEngine.Display.UpdateDisplay | Display.cs:224-260 | cells are ApplyCell of the old queue; the back buffer is synced; the trace gets the diff and then the cursor at (0, h+1); the queue is empty |
| DisplayEngine.Display.ClearFrame | Display.cs:265-281 | both buffers are blank in every cell; the queue is the old queue followed by the fill queue of the blank |
| DisplayEngine.Display.LoadCells | Display.cs:572-581 | the nested loops append each cell's frame glyph and color, row-major, over [0,x1)×[0,y1) |
| DisplayEngine.Display.LoadFrame | Display.cs:572-581 | as written: appends the frame's requests for [0,w−1)×[0,h−1) only |
| DisplayEngine.Display.LoadWholeFrame | Display.cs:572-581 | corrected: appends the frame's requests for every cell of the grid, row-major |
| DisplayEngine.Display.GetCharacterBuffer | Display.cs:466-479 | a fresh w×h array holding each front-buffer glyph |
| DisplayEngine.Display.GetColorBuffer | Display.cs:481-494 | a fresh w×h array holding each front-buffer color |
| DisplayEngine.Display.GetZIndexBuffer | Display.cs:496-509 | a fresh w×h array holding each front-buffer zIndex |
| DisplayEngine.Display.DisplayConfig | Display.cs:299-307 | sets the base color and empty glyph, then clears and redraws. Every cell is ApplyCell of the blank with the old queue plus the blank fill. The back buffer equals the front buffer, the queue is empty, and the trace gains exactly 3·w·h + 2 events |

## Left out

- Console I/O: `SetCursorPosition`, `ForegroundColor` and `Write` are modelled as events appended to the ghost `trace`. `Console.InputEncoding` (Display.cs:304) sets no state the model observes and is left out.
- `Point.GetDistance` (Display.cs:22-27) and `Point.ToString`: floating point (`Math.Pow`, `Math.Sqrt`) and string formatting.
- `CalculateBarycentric` uses `double`. The model computes the weights as exact reals, so IEEE rounding of points very near an edge is not captured.
- 32-bit wrap-around of the coordinate arithmetic (Display.cs:337, 351, 614) is not modelled: coordinates are unbounded integers.
- A C# `string` may be `null`, as in the default `Pixel` glyph and the default `emptyCharacter`. The model uses the empty string `""` for null.
- `ConsoleColor` is the 16-value enumeration `Color`; the C# default value (0) is `Black`.
- The default arguments of the C# methods (`White`, zIndex 0, `" "` for `DisplayConfig`) are not modelled: every call passes its arguments.
- `Frame` is a C# struct holding two array references. The model makes it a class with two `const` arrays, which shares the arrays just as copying the struct does.
- Geometry.Div: a zero component of the divisor is a precondition. The source's `/` throws DivideByZeroException there (Display.cs:43), and no caller catches it; the model has no exception path.
- Frames.Frame.constructor: `sourceColors` must be at least as large as `sourceChars` in both dimensions. The source throws IndexOutOfRangeException at Display.cs:206 when it is smaller; the model has no exception path.
- DisplayEngine.Display.constructor: the resolution must be non-negative in both coordinates. The source's `new Pixel[resolution.x, resolution.y]` (Display.cs:312) throws OverflowException for a negative size; the model has no exception path.
- DisplayEngine.Display.DrawText: the text is a sequence of Unicode scalar values, while `text.ToCharArray()` (Display.cs:518) yields UTF-16 code units. A character above U+FFFF (an emoji, say) is one request in the model but two requests in the source, one lone surrogate each, and every later character then lands one column further right in the source. Dafny's `char` cannot hold a lone surrogate, so this is not modelled. `Text.TextLayout` and `Text.TextFromLength` count scalars in the same way. A `null` text throws NullReferenceException at Display.cs:518; the model's text is never null.
- LoadFrame, LoadWholeFrame: the frame must cover the cells read (the source would throw an index exception otherwise); this is a precondition.
- Program.cs, the demo entry point, is not part of this model.
- Some source loops are split into helper methods, each proved against its own specification function:
  - `FillBox`: the rectangle-fill and FillFrame loops.
  - `FillTriangle`/`FillTriangleRow`: the triangle-fill loops.
  - `Walk`/`Advance`: DrawLine's loop.
  - `CircleWalk`/`PlotBlock`/`MidpointAdvance`: DrawCircle's loop.
  - `ApplyQueue`/`Redraw`/`RedrawRow`: UpdateDisplay's two phases.
  - `LoadCells`: LoadFrame's loops.

## Findings

| source | as written | input that shows it | evidently intended | confidence | as-written member | corrected member |
|---|---|---|---|---|---|---|
| Display.cs:574-576 | `LoadFrame` loops `y < resolution.y - 1` and `x < resolution.x - 1` | any w, h ≥ 1: cell (w−1, h−1) is on the grid but never loaded; a 3×3 grid loads 4 of 9 cells | every cell of the grid is loaded, `y < resolution.y`, `x < resolution.x` | not executed | DisplayEngine.Display.LoadFrame, Frames.LoadFrameMissesEdges | DisplayEngine.Display.LoadWholeFrame, Frames.LoadWholeFrameCovers |
| Display.cs:550-555 | `DrawCircle` calls `FillCircleLine`/`PlotCirclePoints` without its `zIndex`, so they paint at their default 0 | `DrawCircle(Circle((1,1), 0), "o", false, White, 5)` on a 3×3 grid queues (1,1) at zIndex 0 | the circle is painted at the caller's zIndex, like every other Draw call | not executed | DisplayEngine.Display.DrawCircle, Circles.DrawCircleDropsDepth, Circles.DrawCircleDepthExample | DisplayEngine.Display.DrawCircleAtDepth, Circles.DrawCircleAtDepthKeepsDepth |
