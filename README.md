# piltext core, modelled in Dafny

This project models the layout core of piltext, a Python library that lays
text and images out on Pillow images. It covers four source files.

- **`TextGrid`** (piltext/text_grid.py) divides an image into rows and
  columns.
  - It keeps a dictionary of merged regions (`merged_cells`).
  - It keeps a lazily filled cache of cell rectangles (`grid2pixel`), which
    callers may adjust.
  - It sends text, paste and rectangle requests to an image drawer.
- **`TextBox`** (piltext/text_box.py) grows a font until the text no
  longer fits, and wraps words greedily into lines.
- **piltext/ascii_art.py** has three parts:
  - nearest-colour matching against a 16-entry ANSI palette;
  - `display_readable_text` and its grid layout `_display_grid_text`;
  - the pixel loop of `display_as_ascii`, which emits a glyph for each
    pixel and a colour escape whenever the colour changes.
- **`ImageSquares`** (piltext/image_squares.py) shows a percentage as a grid
  of full, partly filled and empty squares.

## Modules and files

| File | Module | What it models |
|---|---|---|
| `wrappers.dfy` | `Wrappers` | `Option` and `Result`. |
| `pylib.dfy` | `PyLib` | The Python built-ins the source relies on: `int()` truncation, floor and truncating division, the whitespace `int()` skips, negative list indices, `str.center`/`ljust`/`rjust`/`strip`/`split`/`join`. |
| `grid_geometry.dfy` | `GridGeometry` | Cell formula, row-major walks, union boxes and edge adjustments. |
| `merge_table.dfy` | `MergeTable` | The insertion-ordered `merged_cells` dictionary, and `get_grid`'s resolution. |
| `text_grid.dfy` | `Grid` | The class `TextGrid`: fields `merged`, `cache` and `drawing`. `drawing` is the log of drawer requests. The file also holds the specification functions and lemmas about them. |
| `grid_examples.dfy` | `GridExamples` | The scenarios of tests/test_text_grid.py, replayed on the class. |
| `text_box.dfy` | `TextBoxes` | The class `TextBox`. |
| `ascii_art.dfy` | `AsciiArt` | The palette, hex parsing, `_hex_to_ansi`, `_convert_color` and `_apply_color`. |
| `ascii_layout.dfy` | `AsciiLayout` | `display_readable_text` and `_display_grid_text`, with their helpers. |
| `ascii_image.dfy` | `AsciiImage` | The glyph-and-escape loop of `display_as_ascii`. |
| `image_squares.dfy` | `ImageSquares` | `ImageSquares.__init__` arithmetic, and `_draw_squares` as a list of rectangles. |

### How collaborators are represented

- **Font measurement.** The font manager is a parameter:
  - in `TextBox`, `measure(text, size)` and `width(line)`;
  - in the row-height search, a table `measure[size]` of widths and
    heights.
- **Images.** They arrive already resized. Each pixel carries its grey
  level and, when it is a colour tuple, its colour already linearised.
- **Floats.** They are exact reals. Python's `int()` on a float is
  `PyLib.Trunc`, which truncates toward zero.

### Behaviour of the source worth noting

- **Overlapping merges.** Merges are last-write-wins: a cell in two merged
  ranges keeps only the later one, which can strand the earlier region
  (`MergeTable.OverlapStrands`).
- **The height the row-height search keeps.** The search keeps the height
  of the last fitting probe. When widths grow with the font size, that
  probe is the largest fitting size (`Grid.SearchedTextHeightMeets`).
- **The row-height search as wired.** With `end` given, `draw_text`
  ignores `font_size`, so the row-height search measures a constant
  (`Grid.ConstantMeasure`). See "## Findings".

## Model

| member | source | states |
|---|---|---|
| GridGeometry.Span | piltext/text_grid.py:199-200 | The nested `range` loops visit exactly the addresses of the row and column bounds. |
| GridGeometry.CellsAre | piltext/text_grid.py:199-200 | A region's walk visits exactly its cells. It is empty iff the region has no cell. |
| GridGeometry.Hull | piltext/text_grid.py:207 | `min`/`max` over the edges gives a rectangle that bounds every given rectangle. Each of its edges is some rectangle's edge. |
| GridGeometry.CellRect | piltext/text_grid.py:99-106 | The rectangle `_get_or_compute_cell` computes on first access, each edge `int()`-truncated on its own. `GridGeometry.LookupUnmodified` ties it to an unadjusted cache. |
| GridGeometry.StoreKeepsLookups | piltext/text_grid.py:99-106 | Storing a cell's computed rectangle on first access changes no cell's rectangle. |
| GridGeometry.LookupUnmodified | piltext/text_grid.py:99-106 | In a cache with no adjusted entry, every cell's rectangle is the truncating formula. |
| GridGeometry.EdgeMonotone | piltext/text_grid.py:101-104 | Truncated grid lines keep the order of their indices. |
| GridGeometry.PixelBox | piltext/text_grid.py:181-207 | `_grid_to_pixels`: the min/max hull of the looked-up cell rectangles, absent where `min([])` raises. `GridGeometry.PixelBoxIsUnion` and `GridGeometry.PixelBoxIs` characterise it. |
| GridGeometry.PixelBoxSameLookups | piltext/text_grid.py:198-207 | The union box depends only on the rectangles the cache gives the cells. |
| GridGeometry.PixelBoxIsUnion | piltext/text_grid.py:198-207 | A non-empty region's box bounds every cell of the region. Each edge is attained by one of its cells. |
| GridGeometry.PixelBoxIs | piltext/text_grid.py:198-207 | Conversely, a rectangle that bounds every cell and attains every edge is the region's box. |
| GridGeometry.CornerRect | piltext/text_grid.py:169-179 | `_grid_to_pixels_old`: the box from the region's two corners alone. `GridGeometry.UnionMatchesCornerFormula` proves it equals the union of the cells before any adjustment. |
| GridGeometry.CellInCorner | piltext/text_grid.py:169-179 | Every cell lies inside the closed form `_grid_to_pixels_old` computes from the region's corners. |
| GridGeometry.UnionMatchesCornerFormula | piltext/text_grid.py:169-207 | Before any adjustment, the union over the cells equals the closed form from the corners. |
| GridGeometry.EdgeShift | piltext/text_grid.py:445-465 | The cache after `modify_grid2pixel`: the four guarded loops in the source's order. `GridGeometry.EdgeShiftAt` states that exactly the region's outer edges move. |
| GridGeometry.MovedFour | piltext/text_grid.py:447-465 | The four single-edge moves, made in the source's order, move all four edges at once. |
| GridGeometry.ShiftCellsAt | piltext/text_grid.py:448-451 | One adjustment loop moves one edge of each listed cell exactly once. It leaves every other cell as it was. |
| GridGeometry.ShiftIfAt | piltext/text_grid.py:448-455 | A guarded loop moves edge `e` by `d` exactly for the listed cells. |
| GridGeometry.EdgeShiftAt | piltext/text_grid.py:445-465 | `modify_grid2pixel` moves only the region's outer edges: the top row's tops, the bottom row's bottoms, the left column's lefts and the right column's rights. Every other coordinate stays unchanged. |
| GridGeometry.WidenedCellsInside | piltext/text_grid.py:424-465 | After widening by non-negative deltas, every cell of the region lies inside the widened corner rectangle. |
| GridGeometry.WidenedCorners | piltext/text_grid.py:424-465 | After widening, the start cell carries the widened left and top edges. The end cell carries the right and bottom edges. |
| GridGeometry.WidenedBox | piltext/text_grid.py:424-465 | Widening an unadjusted region by non-negative deltas widens its box by exactly those deltas. |
| MergeTable.Put | piltext/text_grid.py:228 | Dictionary assignment: the map is updated at one key. A new key goes last, and old keys keep their order. |
| MergeTable.MergeCellsAt | piltext/text_grid.py:226-228 | After the merge loop, the listed cells map to the region. Other keys keep their regions, and old keys keep their places. |
| MergeTable.MergeCellsDone | piltext/text_grid.py:226-228 | The loop over all of a region's cells is `Merge`. A consistent table stays consistent. |
| MergeTable.Merge | piltext/text_grid.py:209-228 | `merge` is the assignment loop over the rectangle's cells, row by row, and keeps the table well formed. `MergeTable.MergeAt` states its exact effect. |
| MergeTable.MergeAt | piltext/text_grid.py:209-228 | `merge` maps exactly the rectangle's cells to the region and changes no other entry. |
| MergeTable.MergeAll | piltext/text_grid.py:230-251 | `merge_bulk` as the merges applied in list order; the table stays well formed. `MergeTable.MergeAllAt` states the resulting entry of every cell. |
| MergeTable.MergeAllAt | piltext/text_grid.py:230-251 | After `merge_bulk`, a cell maps to the last listed region covering it, or keeps what it had. |
| MergeTable.Dedup | piltext/text_grid.py:592-595 | The "not in values" filter keeps every element once and adds none. |
| MergeTable.DedupOrder | piltext/text_grid.py:592-595 | The filter keeps the order of first occurrences. |
| MergeTable.Values | piltext/text_grid.py:575 | `items()` gives the values in key order. |
| MergeTable.MergedList | piltext/text_grid.py:580-596 | `get_merged_cells_list` is the first-occurrence filter over the dictionary's values. `MergeTable.MergedListSpec` characterises it. |
| MergeTable.ValuesHold | piltext/text_grid.py:576 | A region is among the dictionary's values iff some key maps to it. |
| MergeTable.MergedListSpec | piltext/text_grid.py:580-596 | `get_merged_cells_list` has no repeats and holds exactly the table's values. It orders them by their first key. |
| MergeTable.FirstHolders | piltext/text_grid.py:564-578 | `get_merged_cells`: the entries of the keys whose region no earlier key holds. `MergeTable.FirstHoldersValues` and `MergeTable.MergedDictValues` state its values. |
| MergeTable.FirstHoldersSub | piltext/text_grid.py:574-578 | `get_merged_cells` keeps some of the keys, each with its own region. |
| MergeTable.FirstHoldersNext | piltext/text_grid.py:575-577 | Each key is stored iff its value is not yet among the values collected. |
| MergeTable.FirstHoldersValues | piltext/text_grid.py:564-596 | The values of `get_merged_cells` are, in order, the deduplicated values. |
| MergeTable.MergedDictValues | piltext/text_grid.py:564-596 | The two accessors agree: the dictionary's values are exactly the merged list. |
| MergeTable.MergeKeepsConsistent | piltext/text_grid.py:226-228 | A merge keeps every key inside the region it maps to. |
| MergeTable.GetGrid | piltext/text_grid.py:108-167 | `get_grid` without pixel conversion: an explicit end is taken as given with a tuple start, and a missing start is a `ValueError`. Without an end, a tuple resolves through the dictionary and an integer indexes the merged list. An integer start with an end is reported as a `TypeError` at once: this is the model's choice, since Python returns the pair unchecked (lines 145-147, 167). `MergeTable.ResolveCovers` and `MergeTable.IndexLookup` state what each branch returns. |
| MergeTable.Resolve | piltext/text_grid.py:148-153 | A tuple start's region: the recorded one, or the cell alone when unmerged. `MergeTable.ResolveCovers` and `MergeTable.ClosedResolveMember` state that it covers the cell. |
| MergeTable.ResolveCovers | piltext/text_grid.py:148-153 | A tuple start always resolves, and to a region containing the cell. |
| MergeTable.ClosedResolveMember | piltext/text_grid.py:148-153 | In a closed table, every cell of a cell's region resolves to that same region. |
| MergeTable.ClosedResolveStart | piltext/text_grid.py:148-153 | In a closed table, a region's top-left cell resolves to the region. |
| MergeTable.IndexLookup | piltext/text_grid.py:154-158 | An integer start succeeds iff `-n <= i < n`. A negative index counts from the end. Any other index is an `IndexError`. |
| MergeTable.IndexRoundTrip | piltext/text_grid.py:143-167 | The `i`-th merged region comes back from index `i`, from `i - n` and from its own top-left cell. |
| MergeTable.MergeKeepsClosed | piltext/text_grid.py:226-228 | Merging a region no existing key falls in keeps a closed table closed. |
| MergeTable.OverlapStrands | piltext/text_grid.py:226-228 | Overlapping merges are last-write-wins and leave the earlier region stranded. |
| Grid.BoxOf | piltext/text_grid.py:198-207 | A region's box exists iff the region has a cell. Otherwise `min([])` raises `ValueError`. |
| Grid.AnchorPoint | piltext/text_grid.py:278-317 | The anchor point lies within the box on both axes. |
| Grid.AnchorFallback | piltext/text_grid.py:292-315 | An anchor that is not two characters long acts as "lt". An unknown character falls back to left or top. |
| Grid.AnchorMiddle | piltext/text_grid.py:299-311 | "mm" is equidistant from opposite edges. |
| Grid.AnchorTopLeft | piltext/text_grid.py:292-315 | The default anchor "lt" is the box's top-left corner. |
| Grid.PasteBox | piltext/text_grid.py:558-561 | For "rs", the image's bottom-right corner lands on the box's bottom-right corner. Otherwise its corner is the box's top-left corner. |
| Grid.DimensionsAreBox | piltext/text_grid.py:381-422 | `x` and `y` are the box's top-left corner, and `width` and `height` its extent. `start` and `end` give the resolved region. |
| Grid.Emit | piltext/text_grid.py:525-528 | The requests of a loop that stops at the first failing step, and that step's error. There are never more requests than steps. `Grid.EmitSpec` states the rest. |
| Grid.EmitSpec | piltext/text_grid.py:525-528 | Without a failure every request is made in order. With one, the requests before it are made and its error is raised. |
| Grid.EmitStops | piltext/text_grid.py:525-528 | After a failure, later items change nothing. |
| Grid.TextStep | piltext/text_grid.py:364-379 | The request `set_text` makes: the text at the anchor point of the resolved box, ending at its bottom-right corner, or the resolution's error. `Grid.EmitSpec` and `Grid.TextStepSameLookups` state its role in the item list. |
| Grid.TextStepSameLookups | piltext/text_grid.py:364-379 | The text request depends only on the rectangles the cache gives the cells. |
| Grid.FilledKeeps | piltext/text_grid.py:198-205 | Conversion stores exactly the visited cells and changes no cell's rectangle. |
| Grid.TouchedKeeps | piltext/text_grid.py:108-167 | `get_grid` with pixel conversion changes no cell's rectangle and drops no key. |
| Grid.ExplicitEnd | piltext/text_grid.py:143-167 | Given a region's own corners, `get_grid` converts exactly that region. |
| Grid.CellSet | piltext/text_grid.py:663-665 | The cells marked as drawn are exactly the region's cells. |
| Grid.BorderScan | piltext/text_grid.py:654-669 | The walk of `draw_grid_borders`: a marked cell is skipped, otherwise its region is outlined and all its cells are marked. The `Grid.BorderScan…` lemmas and `Grid.BordersCoverOnce` state what it outlines. |
| Grid.BorderScanMarks | piltext/text_grid.py:654-665 | The walk marks exactly the cells of the regions it outlines. |
| Grid.BorderScanOnce | piltext/text_grid.py:654-665 | On a consistent table, every walked cell gets marked, and no region is outlined twice. |
| Grid.BorderScanFrom | piltext/text_grid.py:655-661 | Every outlined region is the region of a walked cell. |
| Grid.BorderScanNonEmpty | piltext/text_grid.py:661-669 | Every outlined region holds a cell, so its box exists. |
| Grid.BordersCoverOnce | piltext/text_grid.py:638-673 | Each region is outlined at most once. Every grid cell lies in an outlined region, and every outlined region is some grid cell's region. |
| Grid.FilledRegionsKeeps | piltext/text_grid.py:667-669 | Converting regions one after another changes no cell's rectangle. |
| Grid.RowStepAt | piltext/text_grid.py:496-500 | One call moves the top of the region's top-row cells by `delta_y1`, and the bottom of its bottom-row cells by `delta_y2`. The top moves only when the region starts on the row, the bottom only when it ends there. |
| Grid.ApplyRowPlanAt | piltext/text_grid.py:485-501 | A sequence of calls moves each vertical edge by the sum of the calls' moves, and never a horizontal edge. |
| Grid.RowHeightShift | piltext/text_grid.py:467-501 | `modify_row_height`: unchanged when both deltas are 0, else one adjustment per distinct region met along the row. `Grid.RowHeightAt` states which edges move. |
| Grid.RowHeightAt | piltext/text_grid.py:467-501 | In a closed table, cells off the row keep their rectangles. A cell on the row has its top moved iff its region starts on the row, and its bottom moved iff its region ends on it. |
| Grid.LargestFit | piltext/text_grid.py:711-731 | Reference definition: the largest size that fits, every larger size failing to fit. |
| Grid.LargestFitIs | piltext/text_grid.py:711-731 | The largest fitting size is unique. |
| Grid.Bisect | piltext/text_grid.py:711-731 | The binary search over sizes: a fitting width raises the lower bound and records the height, otherwise the upper bound drops. `Grid.BisectMeets` compares it with `Grid.LargestFit`. |
| Grid.BisectMeets | piltext/text_grid.py:712-731 | The binary search ends with 0 or the height of a fitting size. When widths grow with the size, it ends with the height of the largest fitting size. |
| Grid.SearchedTextHeight | piltext/text_grid.py:704-734 | The search started on sizes 4..300 with height 0. `Grid.SearchedTextHeightMeets` and `Grid.ConstantMeasure` state its result. |
| Grid.SearchedTextHeightMeets | piltext/text_grid.py:704-734 | The same holds for the search started on sizes 4..300 with height 0. |
| Grid.ConstantMeasure | piltext/text_grid.py:716-726 | When every probe measures the same, the search returns that height if it fits and 0 otherwise. |
| Grid.SearchRowHeight | piltext/text_grid.py:711-734 | The loop returns the searched height plus both vertical margins. |
| Grid.TextGrid.constructor | piltext/text_grid.py:29-97 | The layout stores the image size, counts and margins. The dictionary and cache start empty, and nothing has been drawn. |
| Grid.TextGrid.GetOrComputeCell | piltext/text_grid.py:99-106 | Returns the cell's rectangle and stores it. Nothing else changes. |
| Grid.TextGrid.GridToPixels | piltext/text_grid.py:181-207 | Returns the union box, or `ValueError` on an empty region. Every visited cell gets stored. |
| Grid.TextGrid.GetMergedCellsList | piltext/text_grid.py:580-596 | Returns the merged list. |
| Grid.TextGrid.GetMergedCells | piltext/text_grid.py:564-578 | Returns the first-holder dictionary. |
| Grid.TextGrid.Locate | piltext/text_grid.py:108-167 | Resolves the start as `GetGrid` specifies. |
| Grid.TextGrid.GetGridPixels | piltext/text_grid.py:108-167 | Returns the resolved region's box, or the resolution's error. It fills the region's cells. |
| Grid.TextGrid.Merge | piltext/text_grid.py:209-228 | The dictionary becomes `Merge(old, g)`. The cache and drawing are unchanged. |
| Grid.TextGrid.MergeBulk | piltext/text_grid.py:230-251 | The dictionary becomes the merges applied in list order. |
| Grid.TextGrid.MoveEdge | piltext/text_grid.py:448-451 | The cache becomes the edge-shifted one. |
| Grid.TextGrid.ModifyGrid2Pixel | piltext/text_grid.py:424-465 | On a resolution error the cache is unchanged. Otherwise it becomes the outer-edge shift of the region. |
| Grid.TextGrid.ModifyRowHeight | piltext/text_grid.py:467-501 | The cache becomes one adjustment per distinct region met along the row, or stays unchanged when both deltas are 0. |
| Grid.TextGrid.SetText | piltext/text_grid.py:319-379 | One text request at the anchor point, ending at the box's bottom-right corner, or the error with nothing drawn. |
| Grid.TextGrid.SetTextList | piltext/text_grid.py:503-528 | Requests are made in order until the first item that raises, and that item's error is returned. No cell's rectangle changes. |
| Grid.TextGrid.DrawGridBorders | piltext/text_grid.py:638-673 | Outlines each distinct region met by the row-major walk, once, at its union box. |
| Grid.TextGrid.WalkBorders | piltext/text_grid.py:655-673 | The same, for any list of cells. |
| Grid.TextGrid.BorderVisit | piltext/text_grid.py:657-673 | One loop body keeps the walk's invariant. |
| Grid.TextGrid.BorderOutline | piltext/text_grid.py:661-673 | An unmarked cell marks its whole region and draws one outline at the region's box, keeping the walk's invariant. |
| Grid.TextGrid.RegionBox | piltext/text_grid.py:661-669 | The cell's region as `get_grid` resolves it, holding the cell, and the region's pixel box; only the region's cells are added to the cache. |
| Grid.TextGrid.PasteImage | piltext/text_grid.py:530-562 | One paste at `PasteBox`, or the error with nothing drawn. |
| Grid.TextGrid.GetRequiredRowHeightForText | piltext/text_grid.py:675-734 | Empty text gives 0 and touches nothing. Otherwise the result is the searched height for the box's width plus the margins, or the resolution's error. |
| Grid.TextGrid.GetDimensions | piltext/text_grid.py:381-422 | The dictionary of the resolved region and its box. |
| GridExamples.GridToPixelsScenario | tests/test_text_grid.py:65-75 | On a 4x4 grid over 480x280, (0,0)-(0,3) is (0,0)-(480,70) and (1,1)-(1,2) is (120,70)-(360,140). |
| GridExamples.DimensionsScenario | tests/test_text_grid.py:128-146 | Cell (0,0) measures x=0, y=0, width 120, height 70, and (1,1)-(2,2) measures x=120, y=70, width 240, height 140. |
| GridExamples.SetTextScenario | tests/test_text_grid.py:77-126 | Text on (1,0)-(2,2) is requested at (0, 70) ending at (360, 210), then text on (2,1) at (120, 140) ending at (240, 210), both anchored "lt". |
| GridExamples.ModifyCellScenario | tests/test_text_grid.py:150-156 | Widening (0,0) by 10 and 5 gives (-10,-5)-(130,75). |
| GridExamples.ModifyMergedScenario | tests/test_text_grid.py:161-168 | Widening the merged (1,1)-(2,2) by 20 and 15, addressed by (1,1), gives (100,55)-(380,225). |
| TextBoxes.FitSizeFits | piltext/text_box.py:25-33 | From a fitting start, the returned size fits and is the one before the first size that does not. With a measurement that grows with the font, every size from that one on is too big, so the returned size is the largest that fits. |
| TextBoxes.TextBox.constructor | piltext/text_box.py:7-9 | Stores the text. |
| TextBoxes.TextBox.FitText | piltext/text_box.py:11-37 | Returns the size before the first size from `start` that does not fit, never below 1. |
| TextBoxes.Greedy | piltext/text_box.py:49-55 | A new line starts only where the next word, added to the current line, measures wider than `max_width`. `TextBoxes.TextBox.GetWrappedTextLines` proves its lines satisfy it. |
| TextBoxes.TextBox.GetWrappedTextLines | piltext/text_box.py:43-62 | The lines rejoin to the text's words, and there are no lines iff there are no words. Each line is trimmed and is a single word or measures within the width. Every break is forced: the next line's first word, added to the line before it, measures wider than the width. Every prefix of a line made of its first `k >= 2` words measured within the width, so a line is never one the loop would have broken earlier. Together these make the wrapping the greedy one. |
| TextBoxes.PrefixesFitAccept | piltext/text_box.py:50-53 | Accepting a word whose test line fits keeps every multi-word prefix of the line within the width and adds the line itself. |
| TextBoxes.PrefixesFitRejects | piltext/text_box.py:50-57 | When "a b" overflows, "a b c" is not a line the wrapping can produce, whatever "a b c" measures. |
| AsciiArt.PaletteCodesEscape | piltext/ascii_art.py:33-50 | Sixteen entries, each code a five-character escape sequence. |
| AsciiArt.RunningMin | piltext/ascii_art.py:76-88 | The `(best_index, min_distance)` pair after the palette loop, replaced only by a strictly smaller distance. The index is the initial one or a valid position; `AsciiArt.RunningMinSpec` proves it is the earliest minimum. |
| AsciiArt.RunningMinSpec | piltext/ascii_art.py:76-88 | The strict `<` update keeps the earliest minimum below the starting bound. If nothing is below the bound, it keeps the initial choice. |
| AsciiArt.StripHashes | piltext/ascii_art.py:71 | `lstrip("#")` removes a prefix made only of '#' and leaves a suffix that does not start with '#'. |
| AsciiArt.ParseHex | piltext/ascii_art.py:72-74 | `int(s, 16)` on a two-character slice lies in -15..255, or raises. |
| AsciiArt.ParseHexSeparators | piltext/ascii_art.py:72-74 | A digit beside U+001C..U+001F raises although `str.isspace()` accepts those characters; a digit beside a space or a no-break space is read. |
| AsciiArt.ReadChannels | piltext/ascii_art.py:72-74 | Reading succeeds with exactly the requested number of channels. |
| AsciiArt.HexDistances | piltext/ascii_art.py:79-84 | The k-th distance is the squared distance to palette entry k, with channels scaled by `int(x * 255)`. |
| AsciiArt.HexIndex | piltext/ascii_art.py:76-88 | The palette index `_hex_to_ansi` settles on, starting from entry 7. It is always a palette index; `AsciiArt.AnsiForNearest` proves it is the earliest nearest entry. |
| AsciiArt.AnsiFor | piltext/ascii_art.py:57-90 | `_hex_to_ansi` as a value: the palette code at the index of the nearest-colour search, or `ValueError` when a channel does not parse. `AsciiArt.AnsiForNearest` proves the index is the earliest nearest entry. |
| AsciiArt.AnsiForNearest | piltext/ascii_art.py:57-90 | Succeeds iff the three channels parse. The code is then that of the earliest palette entry at minimal distance. |
| AsciiArt.HexToAnsi | piltext/ascii_art.py:57-90 | The loop's result is `AnsiFor`. |
| AsciiArt.NearestCode | piltext/ascii_art.py:76-90 | The loop picks the earliest nearest entry. |
| AsciiArt.PaletteLevels | piltext/ascii_art.py:33-50 | Every palette channel is 0, 0.5, 0.75 or 1. |
| AsciiArt.PaletteChannelLevel | piltext/ascii_art.py:80-82 | Such a channel scales into 0..255, giving 255 exactly at 1 and 0 exactly at 0. |
| AsciiArt.OnlyOneRed | piltext/ascii_art.py:43 | Entry 9 is the only pure red, and its code is "\033[91m". |
| AsciiArt.RedDistance | piltext/ascii_art.py:84 | The distance from (255,0,0) is non-negative, and 0 exactly for pure red. |
| AsciiArt.RedChannels | piltext/ascii_art.py:71-74 | "#ff0000" parses to (255, 0, 0). |
| AsciiArt.RedIsEarliest | piltext/ascii_art.py:79-88 | For (255,0,0), entry 9 is the earliest minimum. |
| AsciiArt.NearestEntry | piltext/ascii_art.py:57-90 | When channels parse and k is the earliest minimum, the code is entry k's. |
| AsciiArt.RedIsNine | piltext/ascii_art.py:57-90 | Any colour whose channels read as (255,0,0) maps to entry 9's code. |
| AsciiArt.PureRedIsBrightRed | piltext/ascii_art.py:57-90 | "#ff0000" becomes "\033[91m". |
| AsciiArt.ScaledDistances | piltext/ascii_art.py:326-328 | The k-th distance is `_l2_min` of the brightness-scaled entry and the colour. |
| AsciiArt.ConvertIndex | piltext/ascii_art.py:322-334 | The chosen index is a palette index. |
| AsciiArt.ConvertIndexNearest | piltext/ascii_art.py:322-334 | If some distance is below 2.0, the index is the earliest minimum, whose distance is below 2.0. Otherwise it is 0. |
| AsciiArt.ConvertColor | piltext/ascii_art.py:322-334 | The loop returns the code at `ConvertIndex`. |
| AsciiArt.ApplyColor | piltext/ascii_art.py:195-205 | A non-hex colour leaves the text unchanged. A hex colour succeeds iff its channels parse. Failures are `ValueError`. |
| AsciiArt.ApplyColorWraps | piltext/ascii_art.py:195-205 | A hex colour that succeeds wraps the text in one palette code and the reset. |
| AsciiLayout.GetCellPosition | piltext/ascii_art.py:165-179 | A merged region at the same index wins. Otherwise the result exists iff the text item has a start, and the end defaults to the start. |
| AsciiLayout.PadLeft | piltext/ascii_art.py:187-192 | Left alignment pads nothing before the text, and right alignment pads all. Centring splits the padding within one. |
| AsciiLayout.AlignText | piltext/ascii_art.py:182-192 | `_align_text`: the text cut to the cell width as Python's slice cuts it, then padded left, right or centred. `AsciiLayout.AlignTextShape` proves the width and the placement of the text. |
| AsciiLayout.AlignTextShape | piltext/ascii_art.py:182-192 | For a non-negative width, the result is exactly the cell width: the text, truncated, padded as `PadLeft` says. |
| AsciiLayout.GetTextRow | piltext/ascii_art.py:208-223 | `_get_text_row`: the first line of the band for "t", its last line for "b", and its middle otherwise. `AsciiLayout.TextRowInBand` proves the row lies in the band. |
| AsciiLayout.TextRowInBand | piltext/ascii_art.py:208-223 | The text row lies in the region's band of lines. "t" gives the first line and "b" the last. |
| AsciiLayout.Chunk | piltext/ascii_art.py:241-246 | A chunk is a non-empty slice of at most the cell width, or blanks once the text runs out. |
| AsciiLayout.LineOf | piltext/ascii_art.py:237-249 | There are `columns` parts. Parts outside the span are copied from the row, and parts inside are consecutive chunks of the text. |
| AsciiLayout.BuildGridLine | piltext/ascii_art.py:226-249 | The loop builds `LineOf`. |
| AsciiLayout.AnchorAt | piltext/ascii_art.py:296-297 | The anchor defaults to "mm" and is never empty. |
| AsciiLayout.MaxRow | piltext/ascii_art.py:270-274 | At least `rows - 1`, at least every merge's end row, and equal to one of them. |
| AsciiLayout.PlacementOf | piltext/ascii_art.py:285-306 | Placement fails only with a bad hex colour's `ValueError`. |
| AsciiLayout.PlacementIn | piltext/ascii_art.py:293-305 | Placing a text in a known cell span fails only with the colour's `ValueError`, and otherwise keeps that span. |
| AsciiLayout.PlaceText | piltext/ascii_art.py:284-316 | Placing a text keeps the grid's shape. It fails only with `ValueError` or `IndexError`. |
| AsciiLayout.PlaceTextTouchesOneLine | piltext/ascii_art.py:306-316 | Placing a text changes at most the line its text row indexes, and only within its column span. |
| AsciiLayout.PlaceAll | piltext/ascii_art.py:284-316 | Placing all texts keeps the grid's shape. |
| AsciiLayout.SetupOf | piltext/ascii_art.py:262-277 | The settings `_display_grid_text` derives: `columns`, `merge` and `texts` with their defaults, and `cell_width = width // columns`. It is absent where that divides by zero. `AsciiLayout.GridTextErrors` states the error. |
| AsciiLayout.BlankGrid | piltext/ascii_art.py:279-282 | `actual_rows * 3` lines of `columns` blank cells. |
| AsciiLayout.Render | piltext/ascii_art.py:318 | One output line per grid line. |
| AsciiLayout.WriteText | piltext/ascii_art.py:285-316 | The loop body computes `PlaceText`. |
| AsciiLayout.GridText | piltext/ascii_art.py:252-319 | The result of `_display_grid_text`: `ZeroDivisionError` without columns, else the texts placed in order on the blank grid and its lines joined, or the first placement error. `AsciiLayout.GridTextErrors` and `AsciiLayout.GridTextFails` state its error cases. |
| AsciiLayout.DisplayGridText | piltext/ascii_art.py:252-319 | The function's result is `GridText`. |
| AsciiLayout.GridTextFails | piltext/ascii_art.py:284-304 | The first text that raises ends the dump with its error. |
| AsciiLayout.PlaceAllTouchesTextLines | piltext/ascii_art.py:284-316 | Only lines that some text's row indexes differ from the blank grid. |
| AsciiLayout.GridTextErrors | piltext/ascii_art.py:262-319 | `ZeroDivisionError` iff `columns` is 0. Otherwise the only errors are `ValueError` and `IndexError`. |
| AsciiLayout.PlaceAllErrors | piltext/ascii_art.py:284-316 | Placing texts raises only `ValueError` or `IndexError`. |
| AsciiLayout.RenderAll | piltext/ascii_art.py:140-157 | The items in order, each centred when `center` is set and then coloured, or the first error. `AsciiLayout.RenderAllOk` and `AsciiLayout.RenderAllLines` characterise it. |
| AsciiLayout.RenderAllOk | piltext/ascii_art.py:140-157 | Rendering succeeds iff every item renders. |
| AsciiLayout.RenderAllLines | piltext/ascii_art.py:140-157 | After a successful rendering there is one line per item, and the i-th line is the i-th item centred and coloured. |
| AsciiLayout.Blanks | piltext/ascii_art.py:160 | `[""] * k`. |
| AsciiLayout.Spaced | piltext/ascii_art.py:159-160 | The items with `line_spacing` empty lines between them and none after the last. The `AsciiLayout.Spaced…` lemmas give its length and every line. |
| AsciiLayout.SpacedLength | piltext/ascii_art.py:159-160 | n items with k blanks between them give `n + (n-1)k` lines. |
| AsciiLayout.SpacedItem | piltext/ascii_art.py:140-160 | Item i sits at line `i(k+1)`. |
| AsciiLayout.SpacedBlank | piltext/ascii_art.py:159-160 | Every other line is blank. |
| AsciiLayout.SpacedLast | piltext/ascii_art.py:159-160 | The last line is the last item: no spacing after it. |
| AsciiLayout.ReadableText | piltext/ascii_art.py:93-162 | The result of `display_readable_text`: the grid dump when grid information is given, otherwise the rendered items joined with `line_spacing` blank lines between them. `AsciiLayout.RenderAllOk`, `AsciiLayout.RenderAllLines` and the `Spaced` lemmas state its lines. |
| AsciiLayout.DisplayReadableText | piltext/ascii_art.py:93-162 | The function's result is `ReadableText`. |
| AsciiLayout.ReadableFails | piltext/ascii_art.py:140-162 | The first item that raises fails the whole dump. |
| AsciiImage.Glyphs | piltext/ascii_art.py:406 | `char` when non-empty, the ten default glyphs otherwise. Never empty. |
| AsciiImage.GlyphIndex | piltext/ascii_art.py:427-429 | The position `chars[int(brightness * (len(chars) - 1))]` reads, absent where it raises. `AsciiImage.GlyphInBounds` proves it in range for grey 0..255. |
| AsciiImage.GlyphInBounds | piltext/ascii_art.py:414-429 | For grey 0..255 the glyph index is in range. It is 0 for black and the last glyph for white. |
| AsciiImage.PixelText | piltext/ascii_art.py:413-443 | One pixel of `display_as_ascii`: its glyph, preceded in colour mode by its escape when that differs from the previous colour, or `IndexError` for a glyph index out of range. `AsciiImage.PixelEscape` and `AsciiImage.PixelVisible` state its output. |
| AsciiImage.PixelEscape | piltext/ascii_art.py:431-443 | In colour mode, a pixel whose code differs from the previous one writes that escape before its glyph and updates the previous code. Otherwise it writes the glyph alone and keeps the previous code. |
| AsciiImage.InRangeRenders | piltext/ascii_art.py:410-445 | With grey levels in 0..255 and a non-empty glyph set, rendering never raises. |
| AsciiImage.PaletteCodesAreEscapes | piltext/ascii_art.py:33-50 | Every palette code and the reset are escape sequences. |
| AsciiImage.PixelVisible | piltext/ascii_art.py:431-443 | Per pixel, the coloured piece shows exactly the monochrome piece. |
| AsciiImage.RowText | piltext/ascii_art.py:412-445 | One row's line and the previous colour after it. `AsciiImage.RowVisible` and `AsciiImage.RowUniform` state its content. |
| AsciiImage.RowVisible | piltext/ascii_art.py:413-445 | Per row, the coloured line shows exactly the monochrome line. |
| AsciiImage.RowsText | piltext/ascii_art.py:408-446 | The lines of the rows, with the previous colour carried over from row to row. `AsciiImage.RowsVisible` and `AsciiImage.RowsUniform` state their content. |
| AsciiImage.RowsVisible | piltext/ascii_art.py:408-445 | Across rows, the coloured lines show exactly the monochrome lines. |
| AsciiImage.JoinVisible | piltext/ascii_art.py:447-450 | Joining with newlines keeps this. |
| AsciiImage.ColourOnlyAddsEscapes | piltext/ascii_art.py:408-450 | Colour mode succeeds iff monochrome does. It ends with the reset and, with escapes removed, equals the monochrome output. |
| AsciiImage.MonochromeHasNoEscape | piltext/ascii_art.py:431-448 | Monochrome output contains no escape character. |
| AsciiImage.PixelUniform | piltext/ascii_art.py:434-443 | A pixel of code c in colour mode writes c before its glyph exactly when c is not the previous colour, and c becomes the previous colour. |
| AsciiImage.RowUniform | piltext/ascii_art.py:412-443 | In a row whose pixels all map to code c, the coloured line is the monochrome line with c written once in front (unless c was already the previous colour), and c is the previous colour afterwards. |
| AsciiImage.RowsUniform | piltext/ascii_art.py:409-445 | For a single-colour image, only the first row starts with the escape. `previous_color` is not reset between rows. |
| AsciiImage.UniformImageOneEscape | piltext/ascii_art.py:409-450 | A single-colour image renders as that code, the monochrome text, then the reset. |
| AsciiImage.AsciiText | piltext/ascii_art.py:406-450 | The result of `display_as_ascii` after the resize: the rows' lines joined by newlines, with the reset appended in colour mode. `AsciiImage.ColourOnlyAddsEscapes`, `AsciiImage.MonochromeHasNoEscape` and `AsciiImage.UniformImageOneEscape` state its properties. |
| AsciiImage.DisplayAsAscii | piltext/ascii_art.py:406-450 | The loops compute `AsciiText`. |
| AsciiImage.WriteRow | piltext/ascii_art.py:410-445 | One row's loop computes `RowText`. |
| AsciiImage.WritePixel | piltext/ascii_art.py:413-443 | One pixel's body computes `PixelText`. |
| ImageSquares.Clamp | piltext/image_squares.py:31 | The percentage is clamped to [0, 1], unchanged inside it. |
| ImageSquares.CeilSqrt | piltext/image_squares.py:56 | `math.ceil(math.sqrt(m))`, found by counting up. `ImageSquares.CeilSqrtIsLeast` proves it is the least c with `c*c >= m`. |
| ImageSquares.CeilSqrtIsLeast | piltext/image_squares.py:56 | `ceil(sqrt(m))` is the least c with `c*c >= m`. |
| ImageSquares.CeilQuot | piltext/image_squares.py:50-57 | `math.ceil(a / b)` for a divisor of either sign. `ImageSquares.CeilQuotBounds` gives its bounds. |
| ImageSquares.CeilQuotBounds | piltext/image_squares.py:50-57 | `ceil(a / b)` is the least multiple count covering a. |
| ImageSquares.GridShape | piltext/image_squares.py:45-57 | The rows and columns `__init__` derives: as given, one derived from the other by ceiling division, or both from the ceiling square root, with the source's exceptions. `ImageSquares.GridHoldsAllSquares` and `ImageSquares.NearSquareGrid` state their fit. |
| ImageSquares.GridHoldsAllSquares | piltext/image_squares.py:45-57 | The derived grid holds all `max_squares`, wasting less than one row or one column. |
| ImageSquares.NearSquareGrid | piltext/image_squares.py:54-57 | Without given rows or columns, `rows <= columns` and `(c-1)^2 < max <= c^2`. |
| ImageSquares.NewSquares | piltext/image_squares.py:15-60 | `ImageSquares.__init__`: the clamped percentage, the grid shape and `square_size`, or the exception raised. `ImageSquares.NewSquaresErrors` and `ImageSquares.NewSquaresLaid` characterise it. |
| ImageSquares.NewSquaresErrors | piltext/image_squares.py:45-60 | Construction raises exactly when a division or square root fails. `ValueError` comes exactly from the square root of a negative count. |
| ImageSquares.NewSquaresLaid | piltext/image_squares.py:31-60 | A constructed object has the clamped percentage and its square-size formula. |
| ImageSquares.SquarePitch | piltext/image_squares.py:60 | The square plus one gap is `(size - gap) // columns`. |
| ImageSquares.Visits | piltext/image_squares.py:99-106 | How many squares the loops visit: `min(max_squares, rows * columns)`, none for an empty grid. `ImageSquares.DrawSquares` and `ImageSquares.DrawCount` use it. |
| ImageSquares.DrawsThrough | piltext/image_squares.py:99-164 | The rectangles of the squares below an index, in index order, square k in row `k // columns`. `ImageSquares.DrawSquares` proves the loops draw exactly these. |
| ImageSquares.DrawSquares | piltext/image_squares.py:89-164 | The nested loops with `break` draw, in index order, the squares of the first `min(max, rows*cols)` indices. |
| ImageSquares.VisitedRow | piltext/image_squares.py:99-106 | Every visited index lies in a row of the grid. |
| ImageSquares.FullSquares | piltext/image_squares.py:93-95 | `math.floor(percentage * max_squares)`. `ImageSquares.FullSquaresBounds` bounds it by `max_squares`. |
| ImageSquares.FullSquaresBounds | piltext/image_squares.py:93-96 | `0 <= full <= max` and `0 <= partial < 1`. The partial part is 0 when every square is full. |
| ImageSquares.SquareDraws | piltext/image_squares.py:108-164 | The rectangles drawn for one square index: full, partial with its strip, or empty. `ImageSquares.SquareDrawsByKind` and `ImageSquares.SquareInCanvas` state their shape and position. |
| ImageSquares.SquareDrawsByKind | piltext/image_squares.py:108-164 | Full, partial and empty squares are drawn as one, two and one rectangles, at the right position and in the right colours. The strip width lies in [0, square_size). |
| ImageSquares.StripWidth | piltext/image_squares.py:146 | `int(square_size * fill)` for a fraction in [0, 1) lies in [0, square_size], and is below square_size when that is positive. |
| ImageSquares.ActualWidth | piltext/image_squares.py:68-70 | The canvas width `render` computes. `ImageSquares.SquareInCanvas` proves every visited square lies inside it. |
| ImageSquares.ActualHeight | piltext/image_squares.py:71 | The canvas height `render` computes, used the same way. |
| ImageSquares.SquareInCanvas | piltext/image_squares.py:68-110 | Every visited square lies inside the canvas `render` sizes, at least a gap from each edge. |
| ImageSquares.DrawCount | piltext/image_squares.py:99-164 | n visited squares give n rectangles, plus one when the partial square is among them. |
| PyLib.Trunc | piltext/text_grid.py:101-104 | `int()` of a float truncates toward zero: within one below a non-negative value, within one above a negative one. |
| PyLib.FloorDiv | piltext/ascii_art.py:276 | `a // b` is the floor of the quotient, for a divisor of either sign. |
| PyLib.PyIndex | piltext/text_grid.py:154-158 | Indexing succeeds iff `-n <= i < n`, and reads position `i` or `n + i`. |
| PyLib.SliceTo | piltext/ascii_art.py:186 | `s[:n]` keeps the first `n` characters, or drops `-n` from the end for a negative `n`. |
| PyLib.LJust | piltext/ascii_art.py:188 | `ljust` pads on the right up to the width and never cuts. |
| PyLib.RJust | piltext/ascii_art.py:190 | `rjust` pads on the left up to the width and never cuts. |
| PyLib.CenterLeft | piltext/ascii_art.py:192 | `center` puts no padding on the left when the text is at least as wide; otherwise the two sides differ by at most one. |
| PyLib.Center | piltext/ascii_art.py:144 | `center` is the text between the padding `PyLib.CenterLeft` gives and the rest. |
| PyLib.Strip | piltext/text_box.py:49 | `strip()` removes the leading and trailing whitespace; `TextBoxes.StripNextWord` proves what it leaves of a wrapped line. |
| PyLib.Split | piltext/text_box.py:45 | `split()` gives words: non-empty and without whitespace. |
| PyLib.Join | piltext/ascii_art.py:162 | `sep.join(parts)`: the parts with the separator between consecutive ones; `AsciiImage.JoinVisible` and `TextBoxes.TextBox.GetWrappedTextLines` use it. |

## Left out

### Modules not modelled

- piltext/cli.py and piltext/config_loader.py: command line and file
  parsing, outside the layout core.
- piltext/image_dial.py: outside the layout core.
- piltext/image_handler.py and piltext/image_drawer.py: Pillow drawing.
  - Drawing requests become `DrawEvent` entries in `Grid.TextGrid.drawing`,
    or `Rect` entries in the result of `ImageSquares.DrawSquares`.
- The font manager (`build_font`, `calculate_text_size`) is an external
  measurement. It is a parameter (`measure`, `width`).

### text_grid.py

- `print_grid` and the `verbose` printing of `get_dimensions`: console
  output only.
- `set_text`'s `font_name`, `font_variation` and `**kwargs`: passed through
  to the drawer without effect on the layout. `set_text_list` removing
  `start` and `text` from the caller's dictionaries is not modelled either.
- Floats: cell sizes use exact rational division, then truncation. Python's
  float rounding can differ for very large coordinates.
- Grid.TextGrid.Locate: with an integer start and an explicit end, Python
  returns the pair unchecked, and it fails only when later used as a tuple.
  The model reports `TypeError` at once.
- MergeTable.GetGrid: with an integer start and an explicit end, Python's
  `get_grid` returns `(start, end)` unchecked (text_grid.py:145-147, 167).
  The model reports `TypeError` at once, where a caller unpacking the pair
  would fail.
- Grid.TextGrid.SetText: the `(w, h, font size)` that `draw_text` returns
  is not modelled, because measuring the text belongs to the image drawer.
  The method returns only success or the error.
- Grid.TextGrid.SetTextList: states that every cell's rectangle is
  unchanged and no key is dropped, not the exact cache contents after the
  list. An item is a record that always has `start` and `text`, so the
  `KeyError` that `text.pop("start")` or `text.pop("text")` raises for a
  dictionary missing either key, after the earlier items are drawn, is not
  modelled.
- Grid.TextGrid.constructor: requires positive row and column counts.
  Python raises `ZeroDivisionError` for zero. Negative counts give negative
  cell sizes, and `get_grid`, `merge` and `set_text` then return boxes with
  negative extents; the model excludes them.

### text_box.py

- `draw_text` only draws.
- TextBoxes.TextBox.FitText: requires that some size from `start` on does
  not fit. Otherwise the source loops forever.

### ascii_art.py

- `display_as_ascii`'s resizing (`scalar`, `img.resize`), `getpalette`,
  `getpixel`, the grey conversion and the gamma step `(v / 255.0) ** 2.2`:
  Pillow and floating point.
  - The model takes the resized image as rows of `Pixel` values: a grey
    level and the already linearised colour, absent when the pixel is not a
    tuple of at least three channels.
  - The non-numeric `brightness_pixel` branch is not modelled, because a
    grey image yields integers.
- Brightness is exact real division, so glyph indices follow exact
  arithmetic where floats might round.
- `AsciiArt.ParseHex` reads ASCII hex digits only: `int()` also accepts
  non-ASCII decimal digits (such as Arabic-Indic ones), which the model
  rejects. Signs and the whitespace `int()` skips are modelled; an
  underscore cannot stand between two digits in a two-character slice.
- `AsciiArt.ReadChannels` inherits that: a colour spelled with non-ASCII
  digits is refused where the source reads it.
- `_l2_min` (`AsciiArt.L2Min`) is a plain formula with no contract. It is
  used through `AsciiArt.ScaledDistances`.

### image_squares.py

- `render`'s image creation and background fill: Pillow calls. The canvas
  size is modelled (`ActualWidth`, `ActualHeight`).
- `math.sqrt` and float division are modelled exactly, as the least integer
  bounds. Python floats agree with these for any realistic `max_squares`.
- `math.floor(self.percentage * self.max_squares)` is computed on exact
  reals. Python's float product can fall just below an integer: with
  percentage 0.29 and 100 squares it is 28.999999999999996, so Python draws
  28 full squares and a partial one where the model draws 29 full squares.
- ImageSquares.SquareInCanvas: requires `size >= gap`, a positive column
  count and a constructed object. Other settings give a negative square
  size, and the claim does not hold.

## Findings

| source | as written | input that shows it | evidently intended | confidence | as-written member | corrected member |
|---|---|---|---|---|---|---|
| piltext/text_grid.py:716-726 | The row-height search calls `draw_text` with `end=(x2, y2)`. `draw_text` then fits the text to that box and ignores `font_size`, so every probe measures the same font. | Any non-empty text: every probe of 4..300 returns the same `(w, h)`. The result is the height of the text fitted to the current box, not the largest size fitting the width. | Measure each probe at `font_size=mid_font`, so that the search finds the largest size whose width fits and returns its height. | not executed | Grid.ConstantMeasure | Grid.SearchedTextHeightMeets |

`Grid.TextGrid.GetRequiredRowHeightForText` takes the measurement per
font size as a parameter. Given per-size measurements, it computes the
intended search proved in `Grid.SearchedTextHeightMeets`. Given the
constant measurement the code actually produces, it computes what
`Grid.ConstantMeasure` states.
