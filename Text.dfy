// DrawText's layout: one request per character, left to right from the
// start point; when the column reaches the grid width the text wraps to the
// next row, restarting at column 0 (index := -p0.x).
module Text {
  import opened Geometry
  import opened Pixels

  /** The requests DrawText's loop submits for the characters `text`, starting
      from its loop state (index, lineOffset), before MakeRequest clips them. */
  function TextFrom(p0: Point, text: seq<char>, index: int, lineOffset: int,
                    color: Color, zIndex: int, width: int, height: int): seq<Request>
    decreases |text|
  {
    if text == [] then []
    else
      var wraps := p0.x + index == width;
      var index' := if wraps then -p0.x else index;
      var offset := if wraps then lineOffset + 1 else lineOffset;
      if p0.x + index' <= width - 1 && p0.y <= height - 1 then
        [Request(p0.x + index', p0.y + offset, [text[0]], color, zIndex)] +
        TextFrom(p0, text[1..], index' + 1, offset, color, zIndex, width, height)
      else
        TextFrom(p0, text[1..], index', offset, color, zIndex, width, height)
  }

  function TextRequests(p0: Point, text: seq<char>, color: Color, zIndex: int, width: int, height: int): seq<Request>
  {
    TextFrom(p0, text, 0, 0, color, zIndex, width, height)
  }

  /** One turn of DrawText's loop on character i, from cursor (index,
      lineOffset) to (index', offset) after the wrap test: the character's
      request when it passes the row and column guard, then the rest. */
  lemma TextFromStep(p0: Point, text: seq<char>, i: int, index: int, lineOffset: int, index': int, offset: int,
                     color: Color, zIndex: int, width: int, height: int)
    requires 0 <= i < |text|
    requires index' == if p0.x + index == width then -p0.x else index
    requires offset == if p0.x + index == width then lineOffset + 1 else lineOffset
    ensures p0.x + index' <= width - 1 && p0.y <= height - 1 ==>
      TextFrom(p0, text[i..], index, lineOffset, color, zIndex, width, height) ==
        [Request(p0.x + index', p0.y + offset, [text[i]], color, zIndex)] +
        TextFrom(p0, text[i + 1..], index' + 1, offset, color, zIndex, width, height)
    ensures !(p0.x + index' <= width - 1 && p0.y <= height - 1) ==>
      TextFrom(p0, text[i..], index, lineOffset, color, zIndex, width, height) ==
        TextFrom(p0, text[i + 1..], index', offset, color, zIndex, width, height)
  {
    assert text[i..][0] == text[i] && text[i..][1..] == text[i + 1..];
  }

  /** Where the j-th character after a cursor at column `col` (line offset
      `offset`) goes: along the current row while it fits, then in rows of
      `width` cells starting at column 0. */
  function Place(col: int, offset: int, j: int, width: int): (place: (int, int))
    requires width > 0
  {
    if col + j < width then (col + j, offset)
    else ((col + j - width) % width, offset + 1 + (col + j - width) / width)
  }

  lemma PlaceAfterWrap(width: int, offset: int, j: int)
    requires width > 0 && j >= 1
    ensures Place(width, offset, j, width) == Place(1, offset + 1, j - 1, width)
  {
    if j >= width {
      DivModShift(j, width);
    }
  }

  lemma DivModShift(j: int, w: int)
    requires w > 0 && j >= w
    ensures (j - w) % w == j % w && (j - w) / w + 1 == j / w
  {
    var q, r := (j - w) / w, (j - w) % w;
    assert j == (q + 1) * w + r;
    DivModOfMultiple(j, w, q + 1, r);
  }

  /** From a cursor that has not passed the right edge, on a row that
      passes the row guard, every character is submitted. */
  lemma {:induction false} TextFromLength(p0: Point, text: seq<char>, index: int, lineOffset: int,
                                          color: Color, zIndex: int, width: int, height: int)
    requires width > 0 && p0.x + index <= width && p0.y <= height - 1
    ensures |TextFrom(p0, text, index, lineOffset, color, zIndex, width, height)| == |text|
    decreases |text|
  {
    if text != [] {
      if p0.x + index == width {
        TextFromLength(p0, text[1..], -p0.x + 1, lineOffset + 1, color, zIndex, width, height);
      } else {
        TextFromLength(p0, text[1..], index + 1, lineOffset, color, zIndex, width, height);
      }
    }
  }

  /** The closed form of the layout: under the same conditions, the j-th
      character is submitted at Place(column, offset, j). */
  lemma {:induction false} TextFromAt(p0: Point, text: seq<char>, index: int, lineOffset: int,
                                      color: Color, zIndex: int, width: int, height: int, j: int)
    requires width > 0 && p0.x + index <= width && p0.y <= height - 1 && 0 <= j < |text|
    ensures |TextFrom(p0, text, index, lineOffset, color, zIndex, width, height)| == |text|
    ensures var place := Place(p0.x + index, lineOffset, j, width);
      TextFrom(p0, text, index, lineOffset, color, zIndex, width, height)[j] ==
        Request(place.0, p0.y + place.1, [text[j]], color, zIndex)
    decreases |text|
  {
    TextFromLength(p0, text, index, lineOffset, color, zIndex, width, height);
    var col := p0.x + index;
    var rs := TextFrom(p0, text, index, lineOffset, color, zIndex, width, height);
    if col == width {
      var tail := TextFrom(p0, text[1..], -p0.x + 1, lineOffset + 1, color, zIndex, width, height);
      assert rs == [Request(0, p0.y + lineOffset + 1, [text[0]], color, zIndex)] + tail;
      if j > 0 {
        TextFromAt(p0, text[1..], -p0.x + 1, lineOffset + 1, color, zIndex, width, height, j - 1);
        PlaceAfterWrap(width, lineOffset, j);
      }
    } else {
      var tail := TextFrom(p0, text[1..], index + 1, lineOffset, color, zIndex, width, height);
      assert rs == [Request(col, p0.y + lineOffset, [text[0]], color, zIndex)] + tail;
      if j > 0 {
        TextFromAt(p0, text[1..], index + 1, lineOffset, color, zIndex, width, height, j - 1);
        assert Place(col, lineOffset, j, width) == Place(col + 1, lineOffset, j - 1, width);
      }
    }
  }

  /** DrawText from a start column at most the width, on a visible row: the
      j-th character goes to column p0.x + j while that is left of the edge,
      and after that to column (p0.x + j - width) mod width of row
      p0.y + 1 + (p0.x + j - width) div width. Wrapped rows start at column 0,
      not at the start column. */
  lemma TextLayout(p0: Point, text: seq<char>, color: Color, zIndex: int, width: int, height: int)
    requires width > 0 && p0.x <= width && p0.y <= height - 1
    ensures |TextRequests(p0, text, color, zIndex, width, height)| == |text|
    ensures forall j :: 0 <= j < |text| ==>
      TextRequests(p0, text, color, zIndex, width, height)[j] ==
        var place := Place(p0.x, 0, j, width);
        Request(place.0, p0.y + place.1, [text[j]], color, zIndex)
  {
    TextFromLength(p0, text, 0, 0, color, zIndex, width, height);
    forall j | 0 <= j < |text|
      ensures TextRequests(p0, text, color, zIndex, width, height)[j] ==
        var place := Place(p0.x, 0, j, width);
        Request(place.0, p0.y + place.1, [text[j]], color, zIndex)
    {
      TextFromAt(p0, text, 0, 0, color, zIndex, width, height, j);
    }
  }

  /** Text that starts right of the edge, or below the last row, submits nothing. */
  lemma {:induction false} TextFromOffGrid(p0: Point, text: seq<char>, index: int, lineOffset: int,
                                           color: Color, zIndex: int, width: int, height: int)
    requires p0.y > height - 1 || (index == 0 && p0.x > width)
    ensures TextFrom(p0, text, index, lineOffset, color, zIndex, width, height) == []
    decreases |text|
  {
    if text != [] {
      var wraps := p0.x + index == width;
      var index' := if wraps then -p0.x else index;
      var offset := if wraps then lineOffset + 1 else lineOffset;
      TextFromOffGrid(p0, text[1..], index', offset, color, zIndex, width, height);
    }
  }
}
