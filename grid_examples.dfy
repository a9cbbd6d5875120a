/**
 * The scenarios of the grid's test suite (tests/test_text_grid.py), played on
 * a `TextGrid` of 4 rows and 4 columns over a 480x280 image without margins.
 */
module GridExamples {
  import opened Wrappers
  import opened PyLib
  import opened GridGeometry
  import opened MergeTable
  import opened Grid

  /** A layout whose image divides evenly into cells of `cw` by `ch` pixels, without margins. */
  ghost predicate Even(L: GridLayout, cw: nat, ch: nat)
  {
    L.width == cw * L.cols && L.height == ch * L.rows && L.marginX == 0 && L.marginY == 0
  }

  /** When the image divides evenly, the `i`-th grid line is exactly `i` cell sizes in. */
  lemma ExactLine(i: nat, size: nat, parts: int, margin: int)
    requires parts > 0 && margin == 0
    ensures GridLine(i, size * parts, parts, margin) == i * size
  {
    var n := i * (size * parts) + margin * parts;
    assert n == (i * size) * parts;
    assert n >= 0;
    QuotIsDiv(n, parts);
    DivUnique(n, parts, i * size, 0);
  }

  /** On an evenly divided layout a region's corner formula is its cell counts times the cell size. */
  lemma EvenCorners(L: GridLayout, cw: nat, ch: nat, g: Region, b: Rect)
    requires Even(L, cw, ch) && 0 <= g.start.row && 0 <= g.start.col && NonEmpty(g)
    requires b == Rect(g.start.col * cw, g.start.row * ch, (g.end.col + 1) * cw, (g.end.row + 1) * ch)
    ensures CornerRect(L, g) == b
  {
    ExactLine(g.start.col, cw, L.cols, L.marginX);
    ExactLine(g.start.row, ch, L.rows, L.marginY);
    ExactLine(g.end.col + 1, cw, L.cols, -L.marginX);
    ExactLine(g.end.row + 1, ch, L.rows, -L.marginY);
  }

  /** A cache that gives every cell the same rectangle as one with no adjusted entry has no adjusted entry either. */
  lemma StillUnmodified(L: GridLayout, c1: map<Addr, Rect>, c2: map<Addr, Rect>)
    requires SameLookups(L, c1, c2) && Unmodified(L, c2)
    ensures Unmodified(L, c1)
  {
    forall a | a in c1
      ensures c1[a] == CellRect(L, a)
    {
      LookupUnmodified(L, c2, a);
    }
  }

  /** On 120x70 cells the first row spans the full 480 pixels and is 70 high. */
  lemma TopRowBox(L: GridLayout, cache: map<Addr, Rect>)
    requires Even(L, 120, 70) && Unmodified(L, cache)
    ensures BoxOf(L, cache, Region(Addr(0, 0), Addr(0, 3))) == Ok(Rect(0, 0, 480, 70))
  {
    var g := Region(Addr(0, 0), Addr(0, 3));
    EvenCorners(L, 120, 70, g, Rect(0, 0, 480, 70));
    UnionMatchesCornerFormula(L, cache, g);
  }

  /** On 120x70 cells the middle two cells of the second row start at (120, 70) and end at (360, 140). */
  lemma MiddleBox(L: GridLayout, cache: map<Addr, Rect>)
    requires Even(L, 120, 70) && Unmodified(L, cache)
    ensures BoxOf(L, cache, Region(Addr(1, 1), Addr(1, 2))) == Ok(Rect(120, 70, 360, 140))
  {
    var g := Region(Addr(1, 1), Addr(1, 2));
    EvenCorners(L, 120, 70, g, Rect(120, 70, 360, 140));
    UnionMatchesCornerFormula(L, cache, g);
  }

  /** On 120x70 cells the cell (0,0) runs from the origin to (120, 70). */
  lemma FirstCellBox(L: GridLayout, cache: map<Addr, Rect>)
    requires Even(L, 120, 70) && Unmodified(L, cache)
    ensures BoxOf(L, cache, Region(Addr(0, 0), Addr(0, 0))) == Ok(Rect(0, 0, 120, 70))
  {
    var g := Region(Addr(0, 0), Addr(0, 0));
    EvenCorners(L, 120, 70, g, Rect(0, 0, 120, 70));
    UnionMatchesCornerFormula(L, cache, g);
  }

  /** On 120x70 cells the two-by-two block (1,1)-(2,2) runs from (120, 70) to (360, 210). */
  lemma BlockBox(L: GridLayout, cache: map<Addr, Rect>)
    requires Even(L, 120, 70) && Unmodified(L, cache)
    ensures BoxOf(L, cache, Region(Addr(1, 1), Addr(2, 2))) == Ok(Rect(120, 70, 360, 210))
  {
    var g := Region(Addr(1, 1), Addr(2, 2));
    EvenCorners(L, 120, 70, g, Rect(120, 70, 360, 210));
    UnionMatchesCornerFormula(L, cache, g);
  }

  /** On 120x70 cells the block (1,0)-(2,2) runs from (0, 70) to (360, 210). */
  lemma LowerLeftBox(L: GridLayout, cache: map<Addr, Rect>)
    requires Even(L, 120, 70) && Unmodified(L, cache)
    ensures BoxOf(L, cache, Region(Addr(1, 0), Addr(2, 2))) == Ok(Rect(0, 70, 360, 210))
  {
    var g := Region(Addr(1, 0), Addr(2, 2));
    EvenCorners(L, 120, 70, g, Rect(0, 70, 360, 210));
    UnionMatchesCornerFormula(L, cache, g);
  }

  /** On 120x70 cells the cell (2,1) runs from (120, 140) to (240, 210). */
  lemma ThirdRowCellBox(L: GridLayout, cache: map<Addr, Rect>)
    requires Even(L, 120, 70) && Unmodified(L, cache)
    ensures BoxOf(L, cache, Region(Addr(2, 1), Addr(2, 1))) == Ok(Rect(120, 140, 240, 210))
  {
    var g := Region(Addr(2, 1), Addr(2, 1));
    EvenCorners(L, 120, 70, g, Rect(120, 140, 240, 210));
    UnionMatchesCornerFormula(L, cache, g);
  }

  /** Moving cell (0,0)'s edges out by 10 and 5 pixels on 120x70 cells. */
  lemma WidenedCellBox(L: GridLayout, cache: map<Addr, Rect>)
    requires Even(L, 120, 70) && Unmodified(L, cache)
    ensures var g := Region(Addr(0, 0), Addr(0, 0));
      BoxOf(L, EdgeShift(L, cache, g, Deltas(10, 5, 10, 5)), g) == Ok(Rect(-10, -5, 130, 75))
  {
    var g := Region(Addr(0, 0), Addr(0, 0));
    EvenCorners(L, 120, 70, g, Rect(0, 0, 120, 70));
    WidenedBox(L, cache, g, Deltas(10, 5, 10, 5));
  }

  /** Moving the block (1,1)-(2,2)'s edges out by 20 and 15 pixels on 120x70 cells. */
  lemma WidenedBlockBox(L: GridLayout, cache: map<Addr, Rect>)
    requires Even(L, 120, 70) && Unmodified(L, cache)
    ensures var g := Region(Addr(1, 1), Addr(2, 2));
      BoxOf(L, EdgeShift(L, cache, g, Deltas(20, 15, 20, 15)), g) == Ok(Rect(100, 55, 380, 225))
  {
    var g := Region(Addr(1, 1), Addr(2, 2));
    EvenCorners(L, 120, 70, g, Rect(120, 70, 360, 210));
    WidenedBox(L, cache, g, Deltas(20, 15, 20, 15));
  }

  /** After merging a region into an empty dictionary, its first cell resolves to the whole region. */
  lemma MergedFirstCell(t: Table, g: Region)
    requires t == Merge(Empty, g) && NonEmpty(g)
    ensures MergeTable.Valid(t) && GetGrid(t, Cell(g.start), None) == Ok(g)
  {
    MergeAt(Empty, g, g.start);
  }

  /** `test_grid_to_pixels`: the first row spans the full width, and (1,1)-(1,2) is the middle two cells of the second row. */
  method GridToPixelsScenario() returns (row: Result<Rect, GridError>, middle: Result<Rect, GridError>)
    ensures row == Ok(Rect(0, 0, 480, 70))
    ensures middle == Ok(Rect(120, 70, 360, 140))
  {
    var grid := new TextGrid(480, 280, 4, 4, 0, 0);
    var top := Region(Addr(0, 0), Addr(0, 3));
    TopRowBox(grid.layout, grid.cache);
    ghost var c0 := grid.cache;
    row := grid.GridToPixels(top);
    FilledKeeps(grid.layout, c0, Cells(top));
    StillUnmodified(grid.layout, grid.cache, c0);
    MiddleBox(grid.layout, grid.cache);
    middle := grid.GridToPixels(Region(Addr(1, 1), Addr(1, 2)));
  }

  /** `test_get_dimensions`: cell (0,0) measures 120 by 70 at the origin, and the block (1,1)-(2,2) 240 by 140 from (120,70). */
  method DimensionsScenario() returns (single: Result<Dimensions, GridError>, block: Result<Dimensions, GridError>)
    ensures single == Ok(Dimensions(Addr(0, 0), Addr(0, 0), 0, 0, 120, 70))
    ensures block == Ok(Dimensions(Addr(1, 1), Addr(2, 2), 120, 70, 240, 140))
  {
    var grid := new TextGrid(480, 280, 4, 4, 0, 0);
    var cell := Region(Addr(0, 0), Addr(0, 0));
    FirstCellBox(grid.layout, grid.cache);
    ghost var c0 := grid.cache;
    single := grid.GetDimensions(Cell(Addr(0, 0)), None);
    FilledKeeps(grid.layout, c0, Cells(cell));
    StillUnmodified(grid.layout, grid.cache, c0);
    BlockBox(grid.layout, grid.cache);
    block := grid.GetDimensions(Cell(Addr(1, 1)), Some(Addr(2, 2)));
  }

  /** `set_text((1, 0), "TestMulticell", end=(2, 2))` on 120x70 cells draws at (0, 70) up to (360, 210). */
  lemma MulticellText(L: GridLayout, cache: map<Addr, Rect>)
    requires Even(L, 120, 70) && Unmodified(L, cache)
    ensures TextStep(L, Empty, cache, TextItem(Cell(Addr(1, 0)), "TestMulticell", Some(Addr(2, 2)), "lt"))
      == Ok(Text("TestMulticell", (0.0, 70.0), (360, 210), "lt"))
  {
    var b := Rect(0, 70, 360, 210);
    LowerLeftBox(L, cache);
    assert PixelsOf(L, Empty, cache, Cell(Addr(1, 0)), Some(Addr(2, 2))) == Ok(b);
    AnchorTopLeft(b);
  }

  /** `set_text((2, 1), "Test4", end=(2, 1))` on 120x70 cells draws at (120, 140) up to (240, 210). */
  lemma SingleCellText(L: GridLayout, cache: map<Addr, Rect>)
    requires Even(L, 120, 70) && Unmodified(L, cache)
    ensures TextStep(L, Empty, cache, TextItem(Cell(Addr(2, 1)), "Test4", Some(Addr(2, 1)), "lt"))
      == Ok(Text("Test4", (120.0, 140.0), (240, 210), "lt"))
  {
    var b := Rect(120, 140, 240, 210);
    ThirdRowCellBox(L, cache);
    assert PixelsOf(L, Empty, cache, Cell(Addr(2, 1)), Some(Addr(2, 1))) == Ok(b);
    AnchorTopLeft(b);
  }

  /**
   * `test_set_text_different_rows` then `test_set_text_single_cell`: the text
   * for (1,0)-(2,2) is drawn at (0, 70) up to (360, 210), and the text for
   * (2,1) at (120, 140) up to (240, 210), both anchored "lt".
   */
  method SetTextScenario() returns (events: seq<DrawEvent>)
    ensures events == [Text("TestMulticell", (0.0, 70.0), (360, 210), "lt")] + [Text("Test4", (120.0, 140.0), (240, 210), "lt")]
  {
    var grid := new TextGrid(480, 280, 4, 4, 0, 0);
    var multi := TextItem(Cell(Addr(1, 0)), "TestMulticell", Some(Addr(2, 2)), "lt");
    var single := TextItem(Cell(Addr(2, 1)), "Test4", Some(Addr(2, 1)), "lt");
    ghost var e1 := Text("TestMulticell", (0.0, 70.0), (360, 210), "lt");
    ghost var e2 := Text("Test4", (120.0, 140.0), (240, 210), "lt");
    MulticellText(grid.layout, grid.cache);
    ghost var c0 := grid.cache;
    var r1 := grid.SetText(multi);
    assert grid.drawing == [e1] && grid.merged == Empty;
    assert grid.cache == FilledRegion(grid.layout, c0, Region(Addr(1, 0), Addr(2, 2)));
    FilledKeeps(grid.layout, c0, Cells(Region(Addr(1, 0), Addr(2, 2))));
    StillUnmodified(grid.layout, grid.cache, c0);
    SingleCellText(grid.layout, grid.cache);
    assert TextStep(grid.layout, grid.merged, grid.cache, single) == Ok(e2);
    var r2 := grid.SetText(single);
    events := grid.drawing;
  }

  /** `test_modify_grid2pixel`, first half: widening cell (0,0) by 10 and 5 pixels on each side. */
  method ModifyCellScenario() returns (r: Result<Rect, GridError>)
    ensures r == Ok(Rect(-10, -5, 130, 75))
  {
    var grid := new TextGrid(480, 280, 4, 4, 0, 0);
    WidenedCellBox(grid.layout, grid.cache);
    var m := grid.ModifyGrid2Pixel(Cell(Addr(0, 0)), Deltas(10, 5, 10, 5));
    r := grid.GetGridPixels(Cell(Addr(0, 0)), None);
  }

  /** `test_modify_grid2pixel`, second half: widening the merged region (1,1)-(2,2), addressed by its first cell. */
  method ModifyMergedScenario() returns (r: Result<Rect, GridError>)
    ensures r == Ok(Rect(100, 55, 380, 225))
  {
    var grid := new TextGrid(480, 280, 4, 4, 0, 0);
    var g := Region(Addr(1, 1), Addr(2, 2));
    WidenedBlockBox(grid.layout, grid.cache);
    grid.Merge(g);
    MergedFirstCell(grid.merged, g);
    var m := grid.ModifyGrid2Pixel(Cell(Addr(1, 1)), Deltas(20, 15, 20, 15));
    r := grid.GetGridPixels(Cell(Addr(1, 1)), None);
  }
}
