/**
 * The text dumps of piltext/ascii_art.py: `display_readable_text`, which
 * centres and colours a list of strings one per line, and
 * `_display_grid_text`, which lays them out on a character grid of three
 * lines per grid row, following the rows, columns and merged regions of a
 * `TextGrid`.
 */
module AsciiLayout {
  import opened Wrappers
  import opened PyLib
  import opened AsciiArt

  /** A grid position `(row, column)`. */
  type Pos = (int, int)

  /** The "start" and "end" keys of a `grid_info["texts"]` entry, when present. */
  datatype ItemInfo = ItemInfo(start: Option<Pos>, end: Option<Pos>)

  // ---------------------------------------------------------------------
  // `_get_cell_position`, `_align_text`, `_get_text_row`
  // ---------------------------------------------------------------------

  /**
   * `_get_cell_position`: the region of the `i`-th text. A merged region
   * listed at the same index wins; otherwise the text entry's own start and
   * end, the end defaulting to the start; otherwise nothing.
   */
  function GetCellPosition(i: nat, merge: seq<(Pos, Pos)>, items: seq<ItemInfo>): (r: Option<(Pos, Pos)>)
    ensures i < |merge| ==> r == Some(merge[i])
    ensures i >= |merge| ==> (r.Some? <==> i < |items| && items[i].start.Some?)
    ensures i >= |merge| && r.Some? ==>
      r.value.0 == items[i].start.value &&
      r.value.1 == (if items[i].end.Some? then items[i].end.value else items[i].start.value)
  {
    if merge != [] && i < |merge| then Some(merge[i])
    else if i < |items| && items[i].start.Some? then
      var start := items[i].start.value;
      Some((start, if items[i].end.Some? then items[i].end.value else start))
    else None
  }

  /**
   * The left padding `_align_text` gives a kept text of length `len` in a
   * cell `w` wide: none for "l", all of it for "r", and `str.center`'s
   * split otherwise.
   */
  function PadLeft(len: nat, w: int, hAlign: string): (left: int)
    requires len <= w
    ensures 0 <= left <= w - len
    ensures hAlign == "l" ==> left == 0
    ensures hAlign == "r" ==> left == w - len
    ensures hAlign != "l" && hAlign != "r" ==> -1 <= (w - len - left) - left <= 1
  {
    if hAlign == "l" then 0 else if hAlign == "r" then w - len else CenterLeft(len, w)
  }

  /** `_align_text`: cut the text to the cell width, as Python's slice does, then pad it as `hAlign` says. */
  function AlignText(text: string, cellW: int, hAlign: string): string
  {
    var truncated := if |text| > cellW then SliceTo(text, cellW) else text;
    if hAlign == "l" then LJust(truncated, cellW)
    else if hAlign == "r" then RJust(truncated, cellW)
    else Center(truncated, cellW)
  }

  /**
   * The aligned text is exactly the cell width: the kept prefix sits after
   * `PadLeft` spaces and is followed by the rest of the width. A negative
   * width cuts that many characters from the end and pads nothing.
   */
  lemma AlignTextShape(text: string, cellW: int, hAlign: string)
    ensures var r := AlignText(text, cellW, hAlign);
      (cellW >= 0 ==> |r| == cellW) &&
      (cellW >= 0 ==>
         var kept := text[..Min(|text|, cellW)];
         var left := PadLeft(|kept|, cellW, hAlign);
         r == Spaces(left) + kept + Spaces(cellW - |kept| - left)) &&
      (cellW < 0 ==> r == text[..Max(|text| + cellW, 0)])
  {
  }

  /**
   * `_get_text_row`: the character line that carries a text: the first line
   * of its rows for "t", the last for "b", and otherwise half its height
   * below the first.
   */
  function GetTextRow(vAlign: string, startRow: int, endRow: int, cellHeight: int, cellH: int): int
  {
    if vAlign == "t" then startRow * cellHeight
    else if vAlign == "b" then (endRow + 1) * cellHeight - 1
    else startRow * cellHeight + FloorDiv(cellH, 2)
  }

  /**
   * With `cellH` the height of the rows `startRow..endRow`, as
   * `_display_grid_text` computes it, the text line lies within those rows:
   * on the first for "t" and on the last for "b".
   */
  lemma TextRowInBand(vAlign: string, startRow: int, endRow: int, cellHeight: int)
    requires cellHeight > 0 && startRow <= endRow
    ensures var row := GetTextRow(vAlign, startRow, endRow, cellHeight, (endRow - startRow + 1) * cellHeight);
      startRow * cellHeight <= row < (endRow + 1) * cellHeight &&
      (vAlign == "t" ==> row == startRow * cellHeight) &&
      (vAlign == "b" ==> row == (endRow + 1) * cellHeight - 1)
  {
    var n := endRow - startRow + 1;
    var h := n * cellHeight;
    assert (endRow + 1) * cellHeight == startRow * cellHeight + h;
    assert h >= cellHeight by {
      assert h == (n - 1) * cellHeight + cellHeight;
    }
    assert FloorDiv(h, 2) < h;
  }

  // ---------------------------------------------------------------------
  // `_build_grid_line`
  // ---------------------------------------------------------------------

  /** The `j`-th piece of `cw` characters of `text`: shorter at the end, and a blank cell once the text has run out. */
  function Chunk(text: string, j: nat, cw: int): (piece: string)
    ensures cw > 0 && j * cw < |text| ==> 0 < |piece| <= cw
    ensures !(cw > 0 && j * cw < |text|) ==> piece == Spaces(cw)
  {
    if cw > 0 && j * cw < |text| then
      ChunkBounds(j, cw);
      text[j * cw .. Min(j * cw + cw, |text|)]
    else Spaces(cw)
  }

  lemma ChunkBounds(j: nat, cw: int)
    requires cw > 0
    ensures 0 <= j * cw
  {
  }

  /**
   * The line `_build_grid_line` produces, in closed form: column `c` of the
   * text's span `[startCol, endCol]` holds the text's piece for its place in
   * the span, and every other column keeps the grid's part.
   */
  function LineOf(text: string, gridRow: seq<string>, startCol: int, endCol: int, columns: int, cw: int): (parts: seq<string>)
    requires columns <= |gridRow|
    ensures |parts| == Max(columns, 0)
    ensures forall c :: 0 <= c < |parts| && !(startCol <= c <= endCol) ==> parts[c] == gridRow[c]
    ensures forall c :: 0 <= c < |parts| && startCol <= c <= endCol ==> parts[c] == Chunk(text, c - Max(startCol, 0), cw)
  {
    seq(Max(columns, 0), c requires 0 <= c < Max(columns, 0) =>
      if startCol <= c <= endCol then Chunk(text, c - Max(startCol, 0), cw) else gridRow[c])
  }

  /** How many of the columns `0..col-1` lie in `[startCol, endCol]`. */
  function InsideBefore(startCol: int, endCol: int, col: int): nat
  {
    Max(0, Min(col, endCol + 1) - Max(startCol, 0))
  }

  /** One column of `_build_grid_line` inside the span keeps `char_idx` at the text consumed so far. */
  lemma InsideStep(text: string, startCol: int, endCol: int, col: int, cw: int, charIdx: int)
    requires 0 <= col && startCol <= col <= endCol
    requires charIdx == Min(|text|, Max(cw, 0) * InsideBefore(startCol, endCol, col))
    ensures var j := col - Max(startCol, 0);
      var chars := Min(cw, |text| - charIdx);
      j == InsideBefore(startCol, endCol, col) &&
      InsideBefore(startCol, endCol, col + 1) == j + 1 &&
      (chars > 0 ==>
         0 <= charIdx && charIdx + chars <= |text| &&
         Chunk(text, j, cw) == text[charIdx .. charIdx + chars] &&
         charIdx + chars == Min(|text|, Max(cw, 0) * (j + 1))) &&
      (chars <= 0 ==> Chunk(text, j, cw) == Spaces(cw) && charIdx == Min(|text|, Max(cw, 0) * (j + 1)))
  {
    var j := col - Max(startCol, 0);
    assert j == InsideBefore(startCol, endCol, col);
    if cw > 0 {
      var done := j * cw;
      ChunkBounds(j, cw);
      assert Max(cw, 0) * j == done && Max(cw, 0) * (j + 1) == done + cw by {
        assert cw * (j + 1) == cw * j + cw;
      }
      assert charIdx == Min(|text|, done);
      if done < |text| {
        assert Chunk(text, j, cw) == text[done .. Min(done + cw, |text|)];
      }
    } else {
      assert Max(cw, 0) * j == 0 && Max(cw, 0) * (j + 1) == 0;
    }
  }

  /**
   * `_build_grid_line`: walk the columns, copying the grid's part outside
   * the span and cutting the next piece of the text, `cell_width` wide,
   * inside it.
   */
  method BuildGridLine(alignedText: string, gridRow: seq<string>, startCol: int, endCol: int, columns: int, cellWidth: int)
    returns (lineParts: seq<string>)
    requires columns <= |gridRow|
    ensures lineParts == LineOf(alignedText, gridRow, startCol, endCol, columns, cellWidth)
  {
    ghost var line := LineOf(alignedText, gridRow, startCol, endCol, columns, cellWidth);
    lineParts := [];
    var charIdx := 0;
    var col := 0;
    while col < columns
      invariant 0 <= col <= Max(columns, 0)
      invariant lineParts == line[..col]
      invariant charIdx == Min(|alignedText|, Max(cellWidth, 0) * InsideBefore(startCol, endCol, col))
    {
      if col >= startCol && col <= endCol {
        InsideStep(alignedText, startCol, endCol, col, cellWidth, charIdx);
        var charsInCell := Min(cellWidth, |alignedText| - charIdx);
        if charsInCell > 0 {
          lineParts := lineParts + [alignedText[charIdx .. charIdx + charsInCell]];
          charIdx := charIdx + charsInCell;
        } else {
          lineParts := lineParts + [Spaces(cellWidth)];
        }
      } else {
        lineParts := lineParts + [gridRow[col]];
      }
      TakeOneMore(line, col);
      col := col + 1;
    }
    assert line[..col] == line;
  }

  // ---------------------------------------------------------------------
  // `_display_grid_text`
  // ---------------------------------------------------------------------

  /** The keys `_display_grid_text` reads from `grid_info`; a missing key is None. */
  datatype GridInfo = GridInfo(rows: Option<int>, columns: Option<int>, merge: Option<seq<(Pos, Pos)>>, texts: Option<seq<ItemInfo>>)

  /** The value under a key, or the default `dict.get` falls back to. */
  function GetOr<T>(o: Option<T>, default: T): T
  {
    if o.Some? then o.value else default
  }

  /** `colors_list[i] if i < len(colors_list) else None`; a missing list is empty. */
  function ColorAt(colors: seq<Color>, i: nat): Color
  {
    if i < |colors| then colors[i] else NoColor
  }

  /** The anchor of the `i`-th text: its own when given and non-empty, "mm" otherwise. */
  function AnchorAt(anchors: seq<Option<string>>, i: nat): (a: string)
    ensures a != ""
  {
    if i < |anchors| && anchors[i].Some? && anchors[i].value != "" then anchors[i].value else "mm"
  }

  /** `anchor[0]` when there is one, "m" otherwise: the vertical alignment. */
  function VAlign(anchor: string): string
  {
    if |anchor| > 0 then anchor[..1] else "m"
  }

  /** `anchor[1]` when there is one, "m" otherwise: the horizontal alignment. */
  function HAlign(anchor: string): string
  {
    if |anchor| > 1 then anchor[1..2] else "m"
  }

  /** The largest end row among the merged regions, or `rows - 1` when larger or when there are none. */
  function MaxRow(merge: seq<(Pos, Pos)>, rows: int): (m: int)
    ensures m >= rows - 1
    ensures forall k :: 0 <= k < |merge| ==> merge[k].1.0 <= m
    ensures m == rows - 1 || exists k :: 0 <= k < |merge| && m == merge[k].1.0
  {
    if merge == [] then rows - 1 else Max(MaxRow(merge[..|merge| - 1], rows), merge[|merge| - 1].1.0)
  }

  /** What the placement loop of `_display_grid_text` needs besides the grid. */
  datatype Setup = Setup(columns: int, cellWidth: int, merge: seq<(Pos, Pos)>, items: seq<ItemInfo>,
                         colors: seq<Color>, anchors: seq<Option<string>>)

  /** Every line of the grid has one part per column. */
  predicate Shaped(grid: seq<seq<string>>, columns: int)
  {
    forall k :: 0 <= k < |grid| ==> |grid[k]| == Max(columns, 0)
  }

  /** The character line the `i`-th text is written on, and the text as it is written there. */
  datatype Placement = Placement(textRow: int, text: string, start: Pos, end: Pos)

  /** Where and how the `i`-th text goes: None when it has no position, or the `ValueError` of a bad hex colour. */
  function PlacementOf(s: Setup, i: nat, text: string): (r: Result<Option<Placement>, AsciiError>)
    ensures r.Err? ==> r.error == ValueError
  {
    match GetCellPosition(i, s.merge, s.items)
    case None => Ok(None)
    case Some(position) => PlacementIn(s, i, text, position.0, position.1)
  }

  /** The placement of the `i`-th text in the cell span from `startPos` to `endPos`. */
  function PlacementIn(s: Setup, i: nat, text: string, startPos: Pos, endPos: Pos): (r: Result<Option<Placement>, AsciiError>)
    ensures r.Err? ==> r.error == ValueError
    ensures r.Ok? ==> r.value.Some? && r.value.value.start == startPos && r.value.value.end == endPos
  {
    var cellW := (endPos.1 - startPos.1 + 1) * s.cellWidth;
    var cellH := (endPos.0 - startPos.0 + 1) * 3;
    var anchor := AnchorAt(s.anchors, i);
    var aligned := AlignText(text, cellW, HAlign(anchor));
    match ApplyColor(aligned, ColorAt(s.colors, i))
    case Err(e) => Err(e)
    case Ok(colored) =>
      Ok(Some(Placement(GetTextRow(VAlign(anchor), startPos.0, endPos.0, 3, cellH), colored, startPos, endPos)))
  }

  /**
   * One round of the placement loop: the text's line is rebuilt with the
   * text in its columns when the line exists; a line number below zero
   * counts from the end, and one too far below zero is an `IndexError`.
   */
  function PlaceText(grid: seq<seq<string>>, s: Setup, i: nat, text: string): (r: Result<seq<seq<string>>, AsciiError>)
    requires Shaped(grid, s.columns)
    ensures r.Ok? ==> |r.value| == |grid| && Shaped(r.value, s.columns)
    ensures r.Err? ==> r.error in {ValueError, IndexError}
  {
    match PlacementOf(s, i, text)
    case Err(e) => Err(e)
    case Ok(None) => Ok(grid)
    case Ok(Some(p)) =>
      if p.textRow < |grid| then
        match PyIndex(|grid|, p.textRow)
        case None => Err(IndexError)
        case Some(k) => Ok(grid[k := LineOf(p.text, grid[k], p.start.1, p.end.1, s.columns, s.cellWidth)])
      else Ok(grid)
  }

  /**
   * A text changes at most the one line it is written on, counted from the
   * end when negative, and on that line only the columns of its span.
   */
  lemma PlaceTextTouchesOneLine(grid: seq<seq<string>>, s: Setup, i: nat, text: string, k: nat)
    requires Shaped(grid, s.columns) && PlaceText(grid, s, i, text).Ok?
    requires k < |grid| && PlaceText(grid, s, i, text).value[k] != grid[k]
    ensures PlacementOf(s, i, text).Ok? && PlacementOf(s, i, text).value.Some?
    ensures var p := PlacementOf(s, i, text).value.value;
      PyIndex(|grid|, p.textRow) == Some(k) &&
      forall c :: 0 <= c < |grid[k]| && !(p.start.1 <= c <= p.end.1) ==> PlaceText(grid, s, i, text).value[k][c] == grid[k][c]
  {
  }

  /** The placement loop over the first `n` texts, stopping at the first exception. */
  function PlaceAll(grid: seq<seq<string>>, s: Setup, texts: seq<string>, n: nat): (r: Result<seq<seq<string>>, AsciiError>)
    requires n <= |texts| && Shaped(grid, s.columns)
    ensures r.Ok? ==> |r.value| == |grid| && Shaped(r.value, s.columns)
  {
    if n == 0 then Ok(grid)
    else
      match PlaceAll(grid, s, texts, n - 1)
      case Err(e) => Err(e)
      case Ok(g) => PlaceText(g, s, n - 1, texts[n - 1])
  }

  /** `" " * cell_width` in each of `columns` parts, on each of `lines` lines. */
  function BlankGrid(lines: int, columns: int, cellWidth: int): (grid: seq<seq<string>>)
    ensures |grid| == Max(lines, 0) && Shaped(grid, columns)
  {
    seq(Max(lines, 0), _ => seq(Max(columns, 0), _ => Spaces(cellWidth)))
  }

  /** Each line of the grid joined and stripped on the right. */
  function Render(grid: seq<seq<string>>): (lines: seq<string>)
    ensures |lines| == |grid|
  {
    seq(|grid|, k requires 0 <= k < |grid| => StripRight(Concat(grid[k])))
  }

  /** `"".join(parts)`. */
  function Concat(parts: seq<string>): string
  {
    if parts == [] then "" else Concat(parts[..|parts| - 1]) + parts[|parts| - 1]
  }

  /** The placement settings `_display_grid_text` derives from its arguments; None where `width // columns` divides by zero. */
  function SetupOf(width: int, colors: seq<Color>, anchors: seq<Option<string>>, info: GridInfo): Option<Setup>
  {
    var columns := GetOr(info.columns, 1);
    if columns == 0 then None
    else Some(Setup(columns, FloorDiv(width, columns), GetOr(info.merge, []), GetOr(info.texts, []), colors, anchors))
  }

  /** The number of character lines: three per grid row, down to the lowest merged row. */
  function GridLines(info: GridInfo): int
  {
    (MaxRow(GetOr(info.merge, []), GetOr(info.rows, 1)) + 1) * 3
  }

  /** What `_display_grid_text` returns, or the exception it raises. */
  function GridText(texts: seq<string>, width: int, colors: seq<Color>, anchors: seq<Option<string>>, info: GridInfo): Result<string, AsciiError>
  {
    match SetupOf(width, colors, anchors, info)
    case None => Err(ZeroDivisionError)
    case Some(s) =>
      match PlaceAll(BlankGrid(GridLines(info), s.columns, s.cellWidth), s, texts, |texts|)
      case Err(e) => Err(e)
      case Ok(grid) => Ok(Join("\n", Render(grid)))
  }

  /** One round of the placement loop of `_display_grid_text`, on the grid so far. */
  method WriteText(grid: seq<seq<string>>, s: Setup, i: nat, text: string) returns (r: Result<seq<seq<string>>, AsciiError>)
    requires Shaped(grid, s.columns)
    ensures r == PlaceText(grid, s, i, text)
  {
    var placement := PlacementOf(s, i, text);
    if placement.Err? {
      return Err(placement.error);
    }
    if placement.value.None? {
      return Ok(grid);
    }
    var p := placement.value.value;
    if p.textRow < |grid| {
      var k := PyIndex(|grid|, p.textRow);
      if k.None? {
        return Err(IndexError);
      }
      var line := BuildGridLine(p.text, grid[k.value], p.start.1, p.end.1, s.columns, s.cellWidth);
      return Ok(grid[k.value := line]);
    }
    return Ok(grid);
  }

  /**
   * `_display_grid_text`: build a blank grid of three character lines per
   * grid row, write each positioned text into the line its anchor picks,
   * and join the lines stripped on the right.
   */
  method DisplayGridText(texts: seq<string>, width: int, colors: seq<Color>, anchors: seq<Option<string>>, gridInfo: GridInfo)
    returns (r: Result<string, AsciiError>)
    ensures r == GridText(texts, width, colors, anchors, gridInfo)
  {
    var rows := GetOr(gridInfo.rows, 1);
    var columns := GetOr(gridInfo.columns, 1);
    var mergeCells := GetOr(gridInfo.merge, []);
    var textItems := GetOr(gridInfo.texts, []);
    var maxRow := MaxRow(mergeCells, rows);
    var actualRows := maxRow + 1;
    if columns == 0 {
      return Err(ZeroDivisionError);
    }
    var cellWidth := FloorDiv(width, columns);
    var cellHeight := 3;
    var s := Setup(columns, cellWidth, mergeCells, textItems, colors, anchors);
    assert SetupOf(width, colors, anchors, gridInfo) == Some(s);
    var grid := BlankGrid(actualRows * cellHeight, columns, cellWidth);
    ghost var blank := grid;
    assert blank == BlankGrid(GridLines(gridInfo), s.columns, s.cellWidth);
    for i := 0 to |texts|
      invariant PlaceAll(blank, s, texts, i) == Ok(grid)
      invariant |grid| == |blank| && Shaped(grid, columns)
    {
      var placed := WriteText(grid, s, i, texts[i]);
      if placed.Err? {
        GridTextFails(texts, width, colors, anchors, gridInfo, s, i + 1, placed.error);
        return Err(placed.error);
      }
      grid := placed.value;
    }
    var outputLines := Render(grid);
    r := Ok(Join("\n", outputLines));
  }

  /** An exception raised by the placement of the first `n` texts is the exception `_display_grid_text` raises. */
  lemma {:induction false} GridTextFails(texts: seq<string>, width: int, colors: seq<Color>, anchors: seq<Option<string>>, info: GridInfo,
                                         s: Setup, n: nat, e: AsciiError)
    requires SetupOf(width, colors, anchors, info) == Some(s) && n <= |texts|
    requires PlaceAll(BlankGrid(GridLines(info), s.columns, s.cellWidth), s, texts, n) == Err(e)
    ensures GridText(texts, width, colors, anchors, info) == Err(e)
    decreases |texts| - n
  {
    var blank := BlankGrid(GridLines(info), s.columns, s.cellWidth);
    if n < |texts| {
      assert PlaceAll(blank, s, texts, n + 1) == Err(e);
      GridTextFails(texts, width, colors, anchors, info, s, n + 1, e);
    } else {
      assert PlaceAll(blank, s, texts, |texts|) == Err(e);
    }
  }

  /**
   * Apart from the lines its texts are written on, the grid stays blank:
   * every line that differs from the blank grid is the text line of one of
   * the placed texts.
   */
  lemma {:induction false} PlaceAllTouchesTextLines(blank: seq<seq<string>>, s: Setup, texts: seq<string>, n: nat, k: nat)
    requires n <= |texts| && Shaped(blank, s.columns)
    requires PlaceAll(blank, s, texts, n).Ok? && k < |blank|
    requires PlaceAll(blank, s, texts, n).value[k] != blank[k]
    ensures exists i :: 0 <= i < n && PlacementOf(s, i, texts[i]).Ok? && PlacementOf(s, i, texts[i]).value.Some? &&
                        PyIndex(|blank|, PlacementOf(s, i, texts[i]).value.value.textRow) == Some(k)
  {
    var g := PlaceAll(blank, s, texts, n - 1).value;
    if g[k] != blank[k] {
      PlaceAllTouchesTextLines(blank, s, texts, n - 1, k);
      var i :| 0 <= i < n - 1 && PlacementOf(s, i, texts[i]).Ok? && PlacementOf(s, i, texts[i]).value.Some? &&
        PyIndex(|blank|, PlacementOf(s, i, texts[i]).value.value.textRow) == Some(k);
    } else {
      PlaceTextTouchesOneLine(g, s, n - 1, texts[n - 1], k);
    }
  }

  /** Without columns `_display_grid_text` divides by zero; otherwise it raises only what a placement raises. */
  lemma GridTextErrors(texts: seq<string>, width: int, colors: seq<Color>, anchors: seq<Option<string>>, info: GridInfo)
    ensures GetOr(info.columns, 1) == 0 <==> GridText(texts, width, colors, anchors, info) == Err(ZeroDivisionError)
    ensures GridText(texts, width, colors, anchors, info).Err? ==>
      GridText(texts, width, colors, anchors, info).error in {ZeroDivisionError, ValueError, IndexError}
  {
    var columns := GetOr(info.columns, 1);
    if columns != 0 {
      var s := SetupOf(width, colors, anchors, info).value;
      PlaceAllErrors(BlankGrid(GridLines(info), s.columns, s.cellWidth), s, texts, |texts|);
    }
  }

  /** Placing texts raises only a bad hex colour's `ValueError` or a text line's `IndexError`. */
  lemma {:induction false} PlaceAllErrors(grid: seq<seq<string>>, s: Setup, texts: seq<string>, n: nat)
    requires n <= |texts| && Shaped(grid, s.columns)
    ensures PlaceAll(grid, s, texts, n).Err? ==> PlaceAll(grid, s, texts, n).error in {ValueError, IndexError}
  {
    if n > 0 {
      PlaceAllErrors(grid, s, texts, n - 1);
    }
  }

  // ---------------------------------------------------------------------
  // `display_readable_text`
  // ---------------------------------------------------------------------

  /** One text as `display_readable_text` prints it: centred when asked, then coloured. */
  function Rendered(text: string, width: int, center: bool, color: Color): Result<string, AsciiError>
  {
    ApplyColor(if center then Center(text, width) else text, color)
  }

  /** The first `n` texts rendered, or the exception of the first that cannot be. */
  function RenderAll(texts: seq<string>, width: int, center: bool, colors: seq<Color>, n: nat): Result<seq<string>, AsciiError>
    requires n <= |texts|
  {
    if n == 0 then Ok([])
    else
      match RenderAll(texts, width, center, colors, n - 1)
      case Err(e) => Err(e)
      case Ok(done) =>
        match Rendered(texts[n - 1], width, center, ColorAt(colors, n - 1))
        case Err(e) => Err(e)
        case Ok(line) => Ok(done + [line])
  }

  /** Rendering succeeds exactly when every text renders. */
  lemma {:induction false} RenderAllOk(texts: seq<string>, width: int, center: bool, colors: seq<Color>, n: nat)
    requires n <= |texts|
    ensures RenderAll(texts, width, center, colors, n).Ok?
        <==> forall j :: 0 <= j < n ==> Rendered(texts[j], width, center, ColorAt(colors, j)).Ok?
  {
    RenderAllLines(texts, width, center, colors, n);
    if n > 0 && forall j :: 0 <= j < n ==> Rendered(texts[j], width, center, ColorAt(colors, j)).Ok? {
      RenderAllOk(texts, width, center, colors, n - 1);
      assert Rendered(texts[n - 1], width, center, ColorAt(colors, n - 1)).Ok?;
    }
  }

  /** A successful rendering gives each text's rendering, in order. */
  lemma {:induction false} RenderAllLines(texts: seq<string>, width: int, center: bool, colors: seq<Color>, n: nat)
    requires n <= |texts|
    ensures var r := RenderAll(texts, width, center, colors, n);
      r.Ok? ==>
        |r.value| == n &&
        forall j :: 0 <= j < n ==>
          Rendered(texts[j], width, center, ColorAt(colors, j)).Ok? &&
          r.value[j] == Rendered(texts[j], width, center, ColorAt(colors, j)).value
  {
    if n > 0 && RenderAll(texts, width, center, colors, n).Ok? {
      RenderAllLines(texts, width, center, colors, n - 1);
      var before := RenderAll(texts, width, center, colors, n - 1).value;
      var last := Rendered(texts[n - 1], width, center, ColorAt(colors, n - 1)).value;
      var lines := before + [last];
      assert RenderAll(texts, width, center, colors, n) == Ok(lines);
      forall j | 0 <= j < n - 1
        ensures Rendered(texts[j], width, center, ColorAt(colors, j)).Ok?
        ensures lines[j] == Rendered(texts[j], width, center, ColorAt(colors, j)).value
      {
        assert lines[j] == before[j];
      }
    }
  }

  /** `k` empty lines. */
  function Blanks(k: nat): (b: seq<string>)
    ensures |b| == k && forall j :: 0 <= j < k ==> b[j] == ""
  {
    seq(k, _ => "")
  }

  /** The items with `k` empty lines between consecutive ones and none after the last. */
  function Spaced(items: seq<string>, k: nat): seq<string>
  {
    if |items| <= 1 then items else Spaced(items[..|items| - 1], k) + Blanks(k) + [items[|items| - 1]]
  }

  /** A list of `n` items takes `n` lines and `k` more between each two of them. */
  lemma {:induction false} SpacedLength(items: seq<string>, k: nat)
    ensures |Spaced(items, k)| == if items == [] then 0 else |items| + (|items| - 1) * k
    ensures items != [] ==> |Spaced(items, k)| + k == |items| * (k + 1)
  {
    if |items| > 1 {
      var n := |items| - 1;
      SpacedLength(items[..n], k);
      assert (n - 1) * k + k == n * k;
    }
  }

  /** The last item follows the earlier ones and `k` empty lines. */
  lemma SpacedSnoc(items: seq<string>, k: nat)
    requires |items| > 1
    ensures Spaced(items, k) == Spaced(items[..|items| - 1], k) + Blanks(k) + [items[|items| - 1]]
  {
  }

  /** The `i`-th item sits on line `i * (k + 1)`. */
  lemma {:induction false} SpacedItem(items: seq<string>, k: nat, i: nat)
    requires i < |items|
    ensures i * (k + 1) < |Spaced(items, k)| && Spaced(items, k)[i * (k + 1)] == items[i]
  {
    SpacedLength(items, k);
    if |items| > 1 {
      var n := |items| - 1;
      var init := items[..n];
      SpacedSnoc(items, k);
      SpacedLength(init, k);
      if i < n {
        SpacedItem(init, k, i);
        assert init[i] == items[i];
      }
    }
  }

  /** Every line that is not an item's line is empty. */
  lemma {:induction false} SpacedBlank(items: seq<string>, k: nat, j: nat)
    requires j < |Spaced(items, k)| && j % (k + 1) != 0
    ensures Spaced(items, k)[j] == ""
  {
    if |items| > 1 {
      var n := |items| - 1;
      var init := items[..n];
      var sp := Spaced(init, k);
      SpacedSnoc(items, k);
      SpacedLength(init, k);
      if j < |sp| {
        SpacedBlank(init, k, j);
      } else if j == |sp| + k {
        MultipleMod(n, k + 1);
        assert false;
      }
    }
  }

  /** No empty line follows the last item: the list ends with it. */
  lemma SpacedLast(items: seq<string>, k: nat)
    requires items != []
    ensures Spaced(items, k) != [] && Spaced(items, k)[|Spaced(items, k)| - 1] == items[|items| - 1]
  {
    if |items| > 1 {
      SpacedSnoc(items, k);
    }
  }

  lemma MultipleMod(n: nat, m: nat)
    requires m > 0
    ensures (n * m) % m == 0
  {
    DivUnique(n * m, m, n, 0);
  }

  /** What `display_readable_text` returns, or the exception it raises. */
  function ReadableText(texts: seq<string>, width: int, lineSpacing: int, center: bool, colors: seq<Color>,
                        anchors: seq<Option<string>>, gridInfo: Option<GridInfo>): Result<string, AsciiError>
  {
    if gridInfo.Some? then GridText(texts, width, colors, anchors, gridInfo.value)
    else
      match RenderAll(texts, width, center, colors, |texts|)
      case Err(e) => Err(e)
      case Ok(items) => Ok(Join("\n", Spaced(items, Max(lineSpacing, 0))))
  }

  /** The lines printed after the texts `done`, while more are to come. */
  function Pending(done: seq<string>, k: nat, more: bool): seq<string>
  {
    if done == [] then [] else Spaced(done, k) + (if more then Blanks(k) else [])
  }

  /**
   * `display_readable_text`: with grid information, the grid layout;
   * otherwise each text on its own line, centred and coloured as asked,
   * with `line_spacing` empty lines between consecutive texts.
   */
  method DisplayReadableText(texts: seq<string>, width: int, lineSpacing: int, center: bool, colors: seq<Color>,
                             anchors: seq<Option<string>>, gridInfo: Option<GridInfo>) returns (r: Result<string, AsciiError>)
    ensures r == ReadableText(texts, width, lineSpacing, center, colors, anchors, gridInfo)
  {
    if gridInfo.Some? {
      r := DisplayGridText(texts, width, colors, anchors, gridInfo.value);
      return;
    }
    var spacing := Max(lineSpacing, 0);
    var outputLines: seq<string> := [];
    ghost var done: seq<string> := [];
    for i := 0 to |texts|
      invariant RenderAll(texts, width, center, colors, i) == Ok(done)
      invariant outputLines == Pending(done, spacing, i < |texts|)
    {
      var color := ColorAt(colors, i);
      var centeredText := if center then Center(texts[i], width) else texts[i];
      var line := ApplyColor(centeredText, color);
      if line.Err? {
        ReadableFails(texts, width, center, colors, i + 1, line.error);
        return Err(line.error);
      }
      PendingStep(done, line.value, spacing, i < |texts| - 1);
      outputLines := outputLines + [line.value];
      done := done + [line.value];
      if i < |texts| - 1 {
        outputLines := outputLines + Blanks(spacing);
      }
    }
    assert outputLines == Spaced(done, spacing) by {
      if done != [] {
        assert Spaced(done, spacing) + [] == Spaced(done, spacing);
      }
    }
    r := Ok(Join("\n", outputLines));
  }

  /** Appending an item to the lines printed so far: the item, then the spacing if more are to come. */
  lemma PendingStep(done: seq<string>, x: string, k: nat, more: bool)
    ensures Pending(done + [x], k, more) == Pending(done, k, true) + [x] + (if more then Blanks(k) else [])
  {
    assert (done + [x])[..|done|] == done;
  }

  /** A text that cannot be rendered makes the whole list fail. */
  lemma {:induction false} ReadableFails(texts: seq<string>, width: int, center: bool, colors: seq<Color>, n: nat, e: AsciiError)
    requires n <= |texts| && RenderAll(texts, width, center, colors, n) == Err(e)
    ensures RenderAll(texts, width, center, colors, |texts|) == Err(e)
    decreases |texts| - n
  {
    if n < |texts| {
      ReadableFails(texts, width, center, colors, n + 1, e);
    }
  }
}
