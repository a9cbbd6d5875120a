/**
 * `TextGrid` (piltext/text_grid.py): a grid laid over an image, with merged
 * regions, a lazily filled cache of cell rectangles that callers may adjust,
 * and the drawing requests it sends to the image drawer.
 */
module Grid {
  import opened Wrappers
  import opened PyLib
  import opened GridGeometry
  import opened MergeTable

  /** The size of an image to paste. */
  datatype ImageSize = ImageSize(width: int, height: int)

  /** A request to the image drawer, recorded in the order the grid makes them. */
  datatype DrawEvent =
    | Text(text: string, at: (real, real), end: (int, int), anchor: string)
    | Paste(image: ImageSize, corner: (int, int))
    | Rectangle(box: Rect, color: string, lineWidth: int)

  /** The result of `get_dimensions`. */
  datatype Dimensions = Dimensions(start: Addr, end: Addr, x: int, y: int, width: int, height: int)

  /** One entry of `set_text_list`: the `start` and `text` keys, and the `end` and `anchor` options. */
  datatype TextItem = TextItem(start: Target, text: string, end: Option<Addr>, anchor: string)

  /** `_grid_to_pixels` on a region: its union box, or the `ValueError` that `min([])` raises on an empty region. */
  function BoxOf(L: GridLayout, cache: map<Addr, Rect>, g: Region): (r: Result<Rect, GridError>)
    ensures r.Ok? <==> NonEmpty(g)
    ensures r.Err? ==> r.error == ValueError
  {
    match PixelBox(L, cache, g)
    case Some(b) => Ok(b)
    case None => Err(ValueError)
  }

  /** `get_grid(start, end, convert_to_pixel=True)`. */
  function PixelsOf(L: GridLayout, t: Table, cache: map<Addr, Rect>, start: Target, end: Option<Addr>): Result<Rect, GridError>
    requires MergeTable.Valid(t)
  {
    match GetGrid(t, start, end)
    case Err(e) => Err(e)
    case Ok(g) => BoxOf(L, cache, g)
  }

  /**
   * `_calculate_anchor_position`: the second character picks left, middle or
   * right, the first top, middle or bottom/baseline; an anchor that is not two
   * characters long counts as "lt", and an unknown character as left or top.
   * Middles are true divisions, so the point is a pair of reals.
   */
  function AnchorPoint(b: Rect, anchor: string): (p: (real, real))
    ensures b.x1 <= b.x2 ==> b.x1 as real <= p.0 <= b.x2 as real
    ensures b.y1 <= b.y2 ==> b.y1 as real <= p.1 <= b.y2 as real
  {
    var a := if |anchor| != 2 then "lt" else anchor;
    var h := a[1];
    var x := if h == 'l' then b.x1 as real
             else if h == 'm' then (b.x1 + b.x2) as real / 2.0
             else if h == 'r' then b.x2 as real
             else b.x1 as real;
    var v := a[0];
    var y := if v == 't' then b.y1 as real
             else if v == 'm' then (b.y1 + b.y2) as real / 2.0
             else if v == 'b' || v == 's' then b.y2 as real
             else b.y1 as real;
    (x, y)
  }

  /** A malformed anchor places text at the top-left corner, exactly as "lt" does. */
  lemma AnchorFallback(b: Rect, anchor: string)
    requires |anchor| != 2 || anchor[0] !in "tmbs" || anchor[1] !in "lmr"
    ensures var p := AnchorPoint(b, anchor);
      (|anchor| != 2 ==> p == AnchorPoint(b, "lt") && p == (b.x1 as real, b.y1 as real)) &&
      (|anchor| == 2 && anchor[0] !in "tmbs" ==> p.1 == b.y1 as real) &&
      (|anchor| == 2 && anchor[1] !in "lmr" ==> p.0 == b.x1 as real)
  {
  }

  /** The default anchor "lt" is the box's top-left corner. */
  lemma AnchorTopLeft(b: Rect)
    ensures AnchorPoint(b, "lt") == (b.x1 as real, b.y1 as real)
  {
    assert "lt"[0] == 'l' && "lt"[1] == 't';
  }

  /** "mm" is the centre: the point is as far from the left and top edges as from the right and bottom ones. */
  lemma AnchorMiddle(b: Rect)
    ensures var p := AnchorPoint(b, "mm");
      p.0 - b.x1 as real == b.x2 as real - p.0 && p.1 - b.y1 as real == b.y2 as real - p.1
  {
  }

  /** The text request `set_text` makes: at the anchor point of the box, ending at its bottom-right corner. */
  function TextStep(L: GridLayout, t: Table, cache: map<Addr, Rect>, item: TextItem): Result<DrawEvent, GridError>
    requires MergeTable.Valid(t)
  {
    TextEvent(item, PixelsOf(L, t, cache, item.start, item.end))
  }

  /** The text request `set_text` makes once the item's region has a pixel box. */
  function TextEvent(item: TextItem, box: Result<Rect, GridError>): Result<DrawEvent, GridError>
  {
    match box
    case Err(e) => Err(e)
    case Ok(b) => Ok(Text(item.text, AnchorPoint(b, item.anchor), (b.x2, b.y2), item.anchor))
  }

  /**
   * `paste_image`'s box: for anchor "rs" the image's bottom-right corner sits
   * on the region's bottom-right corner, for every other anchor its top-left
   * corner sits on the region's top-left corner.
   */
  function PasteBox(b: Rect, image: ImageSize, anchor: string): (box: (int, int))
    ensures anchor == "rs" ==> box.0 + image.width == b.x2 && box.1 + image.height == b.y2
    ensures anchor != "rs" ==> box == (b.x1, b.y1)
  {
    if anchor == "rs" then (b.x2 - image.width, b.y2 - image.height) else (b.x1, b.y1)
  }

  /**
   * `get_dimensions`: resolve the region, then measure it; the second
   * `get_grid` call, given the region's own corners, converts that same
   * region (`ExplicitEnd`).
   */
  function DimensionsOf(L: GridLayout, t: Table, cache: map<Addr, Rect>, start: Target, end: Option<Addr>): Result<Dimensions, GridError>
    requires MergeTable.Valid(t)
  {
    match GetGrid(t, start, end)
    case Err(e) => Err(e)
    case Ok(g) => Measured(g, BoxOf(L, cache, g))
  }

  /** The dictionary `get_dimensions` builds from a region and its pixel box. */
  function Measured(g: Region, box: Result<Rect, GridError>): Result<Dimensions, GridError>
  {
    match box
    case Err(e) => Err(e)
    case Ok(b) => Ok(Dimensions(g.start, g.end, b.x1, b.y1, b.x2 - b.x1, b.y2 - b.y1))
  }

  /** The reported box is the region's union box: `x`, `y` its top-left corner, `width`, `height` its extent. */
  lemma DimensionsAreBox(L: GridLayout, t: Table, cache: map<Addr, Rect>, start: Target, end: Option<Addr>)
    requires MergeTable.Valid(t)
    requires DimensionsOf(L, t, cache, start, end).Ok?
    ensures var d := DimensionsOf(L, t, cache, start, end).value;
      var g := GetGrid(t, start, end).value;
      var b := PixelBox(L, cache, g).value;
      g == Region(d.start, d.end) && NonEmpty(g) &&
      d.x == b.x1 && d.y == b.y1 && d.x + d.width == b.x2 && d.y + d.height == b.y2
  {
  }

  /**
   * The drawing requests of a loop that stops at the first failing step,
   * and that step's error: a Python loop whose body raises midway leaves
   * the earlier requests made.
   */
  function Emit(steps: seq<Result<DrawEvent, GridError>>): (out: (seq<DrawEvent>, Option<GridError>))
    ensures |out.0| <= |steps|
  {
    if steps == [] then ([], None)
    else
      var p := Emit(steps[..|steps| - 1]);
      if p.1.Some? then p
      else
        match steps[|steps| - 1]
        case Ok(e) => (p.0 + [e], None)
        case Err(x) => (p.0, Some(x))
  }

  /** Without a failing step every request is made, in order; with one, the error is the first failure's and the requests are those before it. */
  lemma {:induction false} EmitSpec(steps: seq<Result<DrawEvent, GridError>>, k: nat)
    requires k <= |steps|
    requires forall i :: 0 <= i < k ==> steps[i].Ok?
    requires k < |steps| ==> steps[k].Err?
    ensures Emit(steps).0 == seq(k, i requires 0 <= i < k => steps[i].value)
    ensures Emit(steps).1 == if k < |steps| then Some(steps[k].error) else None
    decreases |steps|
  {
    if steps != [] {
      var n := |steps| - 1;
      var p := steps[..n];
      if k == |steps| {
        EmitSpec(p, n);
      } else {
        EmitSpec(p, k);
        if k < n {
          assert p[k] == steps[k];
        }
      }
    }
  }

  /** Once a prefix has failed, later steps change nothing. */
  lemma {:induction false} EmitStops(steps: seq<Result<DrawEvent, GridError>>, i: nat)
    requires i <= |steps| && Emit(steps[..i]).1.Some?
    ensures Emit(steps) == Emit(steps[..i])
    decreases |steps|
  {
    if i < |steps| {
      var p := steps[..|steps| - 1];
      assert p[..i] == steps[..i];
      EmitStops(p, i);
    } else {
      assert steps[..i] == steps;
    }
  }

  /** Extending the steps by one makes at most that step's request. */
  lemma EmitSnoc(steps: seq<Result<DrawEvent, GridError>>, i: nat)
    requires i < |steps| && Emit(steps[..i]).1.None?
    ensures var p, q := Emit(steps[..i]), Emit(steps[..i + 1]);
      match steps[i]
      case Ok(e) => q == (p.0 + [e], None)
      case Err(x) => q == (p.0, Some(x))
  {
    assert steps[..i + 1][..i] == steps[..i];
  }

  function TextSteps(L: GridLayout, t: Table, cache: map<Addr, Rect>, items: seq<TextItem>): (steps: seq<Result<DrawEvent, GridError>>)
    requires MergeTable.Valid(t)
    ensures |steps| == |items|
    ensures forall i :: 0 <= i < |items| ==> steps[i] == TextStep(L, t, cache, items[i])
  {
    seq(|items|, i requires 0 <= i < |items| => TextStep(L, t, cache, items[i]))
  }

  /** The grid's own cells, row-major: the walk of `draw_grid_borders`' two outer loops. */
  function GridCells(L: GridLayout): seq<Addr>
  {
    Span(0, L.rows - 1, 0, L.cols - 1)
  }

  /** The cells of a region as a set: what `draw_grid_borders` adds to `drawn`. */
  function CellSet(g: Region): (s: set<Addr>)
    ensures forall a :: a in s <==> InRegion(a, g)
  {
    set a | a in Cells(g)
  }

  /**
   * `draw_grid_borders`' walk: the cells marked as drawn after the given
   * cells, and the regions drawn so far, in order. A marked cell is skipped;
   * otherwise its region is drawn and all of the region's cells are marked.
   */
  function BorderScan(t: Table, cells: seq<Addr>): (s: (set<Addr>, seq<Region>))
  {
    if cells == [] then ({}, [])
    else
      var p := BorderScan(t, cells[..|cells| - 1]);
      var a := cells[|cells| - 1];
      if a in p.0 then p
      else
        var g := Resolve(t, a);
        (p.0 + CellSet(g), p.1 + [g])
  }

  /** The cells of the listed regions. */
  function Marked(rs: seq<Region>): (m: set<Addr>)
  {
    if rs == [] then {} else Marked(rs[..|rs| - 1]) + CellSet(rs[|rs| - 1])
  }

  /** A cell is marked exactly when one of the listed regions holds it. */
  lemma {:induction false} MarkedAt(rs: seq<Region>, a: Addr) returns (i: int)
    ensures a in Marked(rs) ==> 0 <= i < |rs| && InRegion(a, rs[i])
    ensures a !in Marked(rs) ==> forall j :: 0 <= j < |rs| ==> !InRegion(a, rs[j])
    decreases |rs|
  {
    if rs == [] {
      return 0;
    }
    var n := |rs| - 1;
    var init := rs[..n];
    assert Marked(rs) == Marked(init) + CellSet(rs[n]);
    var k := MarkedAt(init, a);
    if a in Marked(init) {
      i := k;
      assert rs[k] == init[k];
    } else if InRegion(a, rs[n]) {
      i := n;
    } else {
      i := 0;
      NoneHolds(rs, init, a);
    }
  }

  /** No listed region holds a cell that neither the last region nor any before it holds. */
  lemma NoneHolds(rs: seq<Region>, init: seq<Region>, a: Addr)
    requires rs != [] && init == rs[..|rs| - 1] && !InRegion(a, rs[|rs| - 1])
    requires forall j :: 0 <= j < |init| ==> !InRegion(a, init[j])
    ensures forall j :: 0 <= j < |rs| ==> !InRegion(a, rs[j])
  {
    forall j | 0 <= j < |init|
      ensures !InRegion(a, rs[j])
    {
      assert rs[j] == init[j];
    }
  }

  /** The walk marks exactly the cells of the regions it draws. */
  lemma {:induction false} BorderScanMarks(t: Table, cells: seq<Addr>)
    ensures BorderScan(t, cells).0 == Marked(BorderScan(t, cells).1)
    decreases |cells|
  {
    if cells != [] {
      BorderScanMarks(t, cells[..|cells| - 1]);
    }
  }

  /**
   * On a consistent table the walk marks every walked cell and draws no
   * region twice: a region drawn earlier has marked the cell that would
   * draw it again.
   */
  lemma {:induction false} BorderScanOnce(t: Table, cells: seq<Addr>)
    requires Consistent(t)
    ensures var s := BorderScan(t, cells);
      NoDup(s.1) && forall a :: a in cells ==> a in s.0
    decreases |cells|
  {
    if cells != [] {
      var init := cells[..|cells| - 1];
      var a := cells[|cells| - 1];
      assert cells == init + [a];
      BorderScanOnce(t, init);
      BorderScanMarks(t, init);
      var p := BorderScan(t, init);
      if a !in p.0 {
        var g := Resolve(t, a);
        assert InRegion(a, g);
        var i := MarkedAt(p.1, a);
        assert g !in p.1;
      }
    }
  }

  /** Every region the walk draws is the region of a walked cell `a`. */
  lemma {:induction false} BorderScanFrom(t: Table, cells: seq<Addr>, i: int) returns (a: Addr)
    requires 0 <= i < |BorderScan(t, cells).1|
    ensures a in cells && BorderScan(t, cells).1[i] == Resolve(t, a)
    decreases |cells|
  {
    var init := cells[..|cells| - 1];
    var last := cells[|cells| - 1];
    assert cells == init + [last];
    var p := BorderScan(t, init);
    if i < |p.1| {
      a := BorderScanFrom(t, init, i);
    } else {
      a := last;
    }
  }

  /**
   * `draw_grid_borders` on a consistent table: each region is outlined at
   * most once, every cell of the grid lies in an outlined region, and every
   * outlined region is the region of a grid cell.
   */
  lemma BordersCoverOnce(L: GridLayout, t: Table)
    requires Consistent(t)
    ensures var rs := BorderScan(t, GridCells(L)).1;
      NoDup(rs) &&
      (forall a: Addr :: 0 <= a.row < L.rows && 0 <= a.col < L.cols ==>
        exists i :: 0 <= i < |rs| && InRegion(a, rs[i])) &&
      (forall i :: 0 <= i < |rs| ==> exists a :: a in GridCells(L) && rs[i] == Resolve(t, a))
  {
    var cells := GridCells(L);
    var s := BorderScan(t, cells);
    assert NoDup(s.1) by {
      BorderScanOnce(t, cells);
    }
    forall i | 0 <= i < |s.1|
      ensures exists a :: a in cells && s.1[i] == Resolve(t, a)
    {
      var a := BorderScanFrom(t, cells, i);
    }
    forall a: Addr | 0 <= a.row < L.rows && 0 <= a.col < L.cols
      ensures exists i :: 0 <= i < |s.1| && InRegion(a, s.1[i])
    {
      assert a in Marked(s.1) by {
        assert a in cells;
        BorderScanOnce(t, cells);
        BorderScanMarks(t, cells);
      }
      var i := MarkedAt(s.1, a);
    }
  }

  /** Every listed region has a cell. */
  predicate AllNonEmpty(rs: seq<Region>)
  {
    forall i :: 0 <= i < |rs| ==> NonEmpty(rs[i])
  }

  /** The rectangles `draw_grid_borders` outlines for the listed regions, in order: each region's union box. */
  function Outlines(L: GridLayout, cache: map<Addr, Rect>, rs: seq<Region>, color: string, lineWidth: int): (es: seq<DrawEvent>)
    requires AllNonEmpty(rs)
    ensures |es| == |rs|
  {
    if rs == [] then []
    else
      var g := rs[|rs| - 1];
      Outlines(L, cache, rs[..|rs| - 1], color, lineWidth) + [Rectangle(BoxOf(L, cache, g).value, color, lineWidth)]
  }

  /** On a consistent table every region the walk draws holds the cell that drew it, so none is empty. */
  lemma BorderScanNonEmpty(t: Table, cells: seq<Addr>)
    requires Consistent(t)
    ensures AllNonEmpty(BorderScan(t, cells).1)
  {
    var rs := BorderScan(t, cells).1;
    forall i | 0 <= i < |rs|
      ensures NonEmpty(rs[i])
    {
      var a := BorderScanFrom(t, cells, i);
      assert InRegion(a, Resolve(t, a));
    }
  }

  /** One more cell of the walk: skipped when marked, else its region is marked and drawn. */
  lemma BorderScanSnoc(t: Table, cells: seq<Addr>, i: nat)
    requires i < |cells|
    ensures var p, a := BorderScan(t, cells[..i]), cells[i];
      BorderScan(t, cells[..i + 1]) == if a in p.0 then p else (p.0 + CellSet(Resolve(t, a)), p.1 + [Resolve(t, a)])
  {
    assert cells[..i + 1][..i] == cells[..i];
  }

  /** Converting regions one after another never changes a cell's rectangle. */
  lemma {:induction false} FilledRegionsKeeps(L: GridLayout, cache: map<Addr, Rect>, rs: seq<Region>)
    ensures SameLookups(L, FilledRegions(L, cache, rs), cache)
    decreases |rs|
  {
    if rs != [] {
      var p := rs[..|rs| - 1];
      FilledRegionsKeeps(L, cache, p);
      FilledKeeps(L, FilledRegions(L, cache, p), Cells(rs[|rs| - 1]));
    }
  }

  /**
   * The state `draw_grid_borders` has reached after the first `i` cells of
   * its walk: the marked cells, the cache and the drawing requests are those
   * of the regions the walk has met so far.
   */
  ghost predicate Walked(L: GridLayout, t: Table, c0: map<Addr, Rect>, d0: seq<DrawEvent>, cells: seq<Addr>, i: nat,
                         color: string, lineWidth: int, drawn: set<Addr>, c: map<Addr, Rect>, d: seq<DrawEvent>)
    requires i <= |cells|
  {
    var p := BorderScan(t, cells[..i]);
    drawn == p.0 && AllNonEmpty(p.1) && c == FilledRegions(L, c0, p.1) && d == d0 + Outlines(L, c0, p.1, color, lineWidth)
  }

  /** After the last cell the walk has met the regions of the whole list. */
  lemma WalkedAll(L: GridLayout, t: Table, c0: map<Addr, Rect>, d0: seq<DrawEvent>, cells: seq<Addr>,
                  color: string, lineWidth: int, drawn: set<Addr>, c: map<Addr, Rect>, d: seq<DrawEvent>)
    requires Walked(L, t, c0, d0, cells, |cells|, color, lineWidth, drawn, c, d)
    ensures var rs := BorderScan(t, cells).1;
      AllNonEmpty(rs) && d == d0 + Outlines(L, c0, rs, color, lineWidth) && c == FilledRegions(L, c0, rs)
  {
    assert cells[..|cells|] == cells;
  }

  /** A cell already marked is skipped, and the walk moves on unchanged. */
  lemma BorderWalkSkip(L: GridLayout, t: Table, c0: map<Addr, Rect>, d0: seq<DrawEvent>, cells: seq<Addr>, i: nat,
                       color: string, lineWidth: int, drawn: set<Addr>, c: map<Addr, Rect>, d: seq<DrawEvent>)
    requires i < |cells| && cells[i] in drawn
    requires Walked(L, t, c0, d0, cells, i, color, lineWidth, drawn, c, d)
    ensures Walked(L, t, c0, d0, cells, i + 1, color, lineWidth, drawn, c, d)
  {
    BorderScanSnoc(t, cells, i);
  }

  /** An unmarked cell has its region marked, its cells converted and its outline drawn. */
  lemma BorderWalkDraw(L: GridLayout, t: Table, c0: map<Addr, Rect>, d0: seq<DrawEvent>, cells: seq<Addr>, i: nat,
                       color: string, lineWidth: int, drawn: set<Addr>, c: map<Addr, Rect>, d: seq<DrawEvent>,
                       g: Region, box: Rect, drawn': set<Addr>, c': map<Addr, Rect>, d': seq<DrawEvent>)
    requires Consistent(t) && i < |cells| && cells[i] !in drawn && g == Resolve(t, cells[i])
    requires Walked(L, t, c0, d0, cells, i, color, lineWidth, drawn, c, d)
    requires BoxOf(L, c, g) == Ok(box)
    requires drawn' == drawn + CellSet(g) && c' == Filled(L, c, Cells(g)) && d' == d + [Rectangle(box, color, lineWidth)]
    ensures Walked(L, t, c0, d0, cells, i + 1, color, lineWidth, drawn', c', d')
  {
    BorderScanSnoc(t, cells, i);
    BorderScanNonEmpty(t, cells[..i + 1]);
    var p := BorderScan(t, cells[..i]);
    BorderDraw(L, c0, d0, p.1, g, color, lineWidth, c, d, c', d');
  }

  /** Drawing one more region: the cache and the requests are those of the longer list. */
  lemma BorderDraw(L: GridLayout, c0: map<Addr, Rect>, d0: seq<DrawEvent>, rs: seq<Region>, g: Region,
                   color: string, lineWidth: int, c: map<Addr, Rect>, d: seq<DrawEvent>, c': map<Addr, Rect>, d': seq<DrawEvent>)
    requires AllNonEmpty(rs) && NonEmpty(g)
    requires c == FilledRegions(L, c0, rs) && d == d0 + Outlines(L, c0, rs, color, lineWidth)
    requires BoxOf(L, c, g).Ok? && c' == Filled(L, c, Cells(g)) && d' == d + [Rectangle(BoxOf(L, c, g).value, color, lineWidth)]
    ensures c' == FilledRegions(L, c0, rs + [g]) && d' == d0 + Outlines(L, c0, rs + [g], color, lineWidth)
  {
    OutlinesSnoc(L, c0, rs, g, color, lineWidth);
    FilledRegionsSnoc(L, c0, rs, g);
    FilledRegionsKeeps(L, c0, rs);
    PixelBoxSameLookups(L, c, c0, g);
    AppendAssoc(d0, Outlines(L, c0, rs, color, lineWidth), [Rectangle(BoxOf(L, c0, g).value, color, lineWidth)]);
  }

  lemma OutlinesSnoc(L: GridLayout, cache: map<Addr, Rect>, rs: seq<Region>, g: Region, color: string, lineWidth: int)
    requires AllNonEmpty(rs) && NonEmpty(g)
    ensures AllNonEmpty(rs + [g])
    ensures Outlines(L, cache, rs + [g], color, lineWidth) == Outlines(L, cache, rs, color, lineWidth) + [Rectangle(BoxOf(L, cache, g).value, color, lineWidth)]
  {
    assert (rs + [g])[..|rs|] == rs;
    assert forall i :: 0 <= i < |rs| ==> rs[i] == (rs + [g])[i];
  }

  lemma FilledRegionsSnoc(L: GridLayout, cache: map<Addr, Rect>, rs: seq<Region>, g: Region)
    ensures FilledRegions(L, cache, rs + [g]) == Filled(L, FilledRegions(L, cache, rs), Cells(g))
  {
    assert (rs + [g])[..|rs|] == rs;
  }

  /** A prefix of the walk draws a prefix of the regions. */
  lemma {:induction false} BorderScanPrefix(t: Table, cells: seq<Addr>, k: nat)
    requires k <= |cells|
    ensures BorderScan(t, cells[..k]).1 <= BorderScan(t, cells).1
    decreases |cells|
  {
    if k < |cells| {
      var init := cells[..|cells| - 1];
      assert init[..k] == cells[..k];
      BorderScanPrefix(t, init, k);
    } else {
      assert cells[..k] == cells;
    }
  }

  /** The regions `get_grid((row, c))` gives for the columns `c` of a row, in column order. */
  function RowRegions(t: Table, row: int, n: nat): (rs: seq<Region>)
    ensures |rs| == n
    ensures forall c :: 0 <= c < n ==> rs[c] == Resolve(t, Addr(row, c))
  {
    seq(n, c => Resolve(t, Addr(row, c)))
  }

  /** The deltas `modify_row_height` passes for a region: `d_y1 = -delta_y1` if it starts on the row, `d_y2 = delta_y2` if it ends on it. */
  function RowDeltas(g: Region, row: int, dy1: int, dy2: int): Deltas
  {
    Deltas(0, if g.start.row == row then -dy1 else 0, 0, if g.end.row == row then dy2 else 0)
  }

  /** The `modify_grid2pixel(start, ...)` calls for the listed regions in order; each call resolves `start` again. */
  function ApplyRowPlan(L: GridLayout, t: Table, cache: map<Addr, Rect>, plan: seq<Region>, row: int, dy1: int, dy2: int): map<Addr, Rect>
  {
    if plan == [] then cache
    else
      var g := plan[|plan| - 1];
      EdgeShift(L, ApplyRowPlan(L, t, cache, plan[..|plan| - 1], row, dy1, dy2), Resolve(t, g.start), RowDeltas(g, row, dy1, dy2))
  }

  /** `modify_row_height`: nothing when both deltas are zero, else one adjustment per distinct region met along the row. */
  function RowHeightShift(L: GridLayout, t: Table, cache: map<Addr, Rect>, row: int, dy1: int, dy2: int): map<Addr, Rect>
  {
    if dy1 == 0 && dy2 == 0 then cache
    else ApplyRowPlan(L, t, cache, Dedup(RowRegions(t, row, L.cols)), row, dy1, dy2)
  }

  /**
   * One more column of `modify_row_height`'s walk: a region already adjusted
   * leaves the plan as it is, a new one is appended.
   */
  lemma RowPlanNext(t: Table, row: int, col: nat, plan: seq<Region>)
    requires plan == Dedup(RowRegions(t, row, col))
    ensures var g := Resolve(t, Addr(row, col));
      Dedup(RowRegions(t, row, col + 1)) == if g in plan then plan else plan + [g]
  {
    var rs := RowRegions(t, row, col + 1);
    assert rs[..col] == RowRegions(t, row, col);
  }

  /** A plan extended by one region ends with that region's adjustment. */
  lemma ApplyRowPlanSnoc(L: GridLayout, t: Table, c: map<Addr, Rect>, plan: seq<Region>, g: Region, row: int, dy1: int, dy2: int)
    ensures ApplyRowPlan(L, t, c, plan + [g], row, dy1, dy2)
         == EdgeShift(L, ApplyRowPlan(L, t, c, plan, row, dy1, dy2), Resolve(t, g.start), RowDeltas(g, row, dy1, dy2))
  {
    var p := plan + [g];
    assert p != [] && p[|p| - 1] == g;
    assert p[..|p| - 1] == plan;
  }

  /** The two facts above, for the walk's current column. */
  lemma RowPlanStep(L: GridLayout, t: Table, c: map<Addr, Rect>, row: int, col: nat, dy1: int, dy2: int, plan: seq<Region>)
    requires plan == Dedup(RowRegions(t, row, col))
    ensures var g := Resolve(t, Addr(row, col));
      (g in plan ==> Dedup(RowRegions(t, row, col + 1)) == plan) &&
      (g !in plan ==>
        Dedup(RowRegions(t, row, col + 1)) == plan + [g] &&
        ApplyRowPlan(L, t, c, plan + [g], row, dy1, dy2)
        == EdgeShift(L, ApplyRowPlan(L, t, c, plan, row, dy1, dy2), Resolve(t, g.start), RowDeltas(g, row, dy1, dy2)))
  {
    RowPlanNext(t, row, col, plan);
    ApplyRowPlanSnoc(L, t, c, plan, Resolve(t, Addr(row, col)), row, dy1, dy2);
  }

  /** A region that its own top-left cell resolves to. */
  predicate Owned(t: Table, g: Region)
  {
    Resolve(t, g.start) == g
  }

  /** One call of the plan: a cell's top moves by `dy1` when it is on the top row of `g` and `g` starts on `row`, its bottom likewise. */
  lemma RowStepAt(L: GridLayout, t: Table, c: map<Addr, Rect>, g: Region, row: int, dy1: int, dy2: int, b: Addr)
    requires Owned(t, g) && NonEmpty(g)
    ensures var r, m := Lookup(L, c, b), Lookup(L, EdgeShift(L, c, Resolve(t, g.start), RowDeltas(g, row, dy1, dy2)), b);
      m.x1 == r.x1 && m.x2 == r.x2 &&
      m.y1 == r.y1 + (if InRegion(b, g) && b.row == g.start.row == row then dy1 else 0) &&
      m.y2 == r.y2 + (if InRegion(b, g) && b.row == g.end.row == row then dy2 else 0)
  {
    EdgeShiftAt(L, c, g, RowDeltas(g, row, dy1, dy2), b);
  }

  /** How far the plan moves the top (`bottom == false`) or the bottom of cell `b`, summed over its calls. */
  function PlanShift(plan: seq<Region>, b: Addr, row: int, d: int, bottom: bool): int
  {
    if plan == [] then 0
    else
      var g := plan[|plan| - 1];
      var edgeRow := if bottom then g.end.row else g.start.row;
      PlanShift(plan[..|plan| - 1], b, row, d, bottom) + (if InRegion(b, g) && b.row == edgeRow == row then d else 0)
  }

  /** Applying the plan moves each edge of `b` by the sum of the calls' moves, and never a horizontal edge. */
  lemma {:induction false} ApplyRowPlanAt(L: GridLayout, t: Table, cache: map<Addr, Rect>, plan: seq<Region>, row: int, dy1: int, dy2: int, b: Addr)
    requires forall i :: 0 <= i < |plan| ==> Owned(t, plan[i]) && NonEmpty(plan[i])
    ensures var r, m := Lookup(L, cache, b), Lookup(L, ApplyRowPlan(L, t, cache, plan, row, dy1, dy2), b);
      m.x1 == r.x1 && m.x2 == r.x2 &&
      m.y1 == r.y1 + PlanShift(plan, b, row, dy1, false) &&
      m.y2 == r.y2 + PlanShift(plan, b, row, dy2, true)
    decreases |plan|
  {
    if plan != [] {
      var n := |plan| - 1;
      var p := plan[..n];
      var g := plan[n];
      ApplyRowPlanAt(L, t, cache, p, row, dy1, dy2, b);
      RowStepAt(L, t, ApplyRowPlan(L, t, cache, p, row, dy1, dy2), g, row, dy1, dy2, b);
    }
  }

  /** A cell off the adjusted row is never moved by the plan. */
  lemma {:induction false} PlanShiftOffRow(plan: seq<Region>, b: Addr, row: int, d: int, bottom: bool)
    requires b.row != row
    ensures PlanShift(plan, b, row, d, bottom) == 0
    decreases |plan|
  {
    if plan != [] {
      PlanShiftOffRow(plan[..|plan| - 1], b, row, d, bottom);
    }
  }

  /** No two regions of the plan share cell `b`. */
  predicate AtMostOneHolds(plan: seq<Region>, b: Addr)
  {
    forall i, j :: 0 <= i < j < |plan| && InRegion(b, plan[i]) ==> !InRegion(b, plan[j])
  }

  /** When at most one region of the plan holds `b`, the sum is that region's move, or nothing. */
  lemma {:induction false} PlanShiftOne(plan: seq<Region>, b: Addr, row: int, d: int, bottom: bool)
    requires AtMostOneHolds(plan, b)
    ensures forall i :: 0 <= i < |plan| && InRegion(b, plan[i]) ==>
      PlanShift(plan, b, row, d, bottom) == if b.row == (if bottom then plan[i].end.row else plan[i].start.row) == row then d else 0
    ensures (forall i :: 0 <= i < |plan| ==> !InRegion(b, plan[i])) ==> PlanShift(plan, b, row, d, bottom) == 0
    decreases |plan|
  {
    if plan != [] {
      var n := |plan| - 1;
      var p := plan[..n];
      assert AtMostOneHolds(p, b);
      PlanShiftOne(p, b, row, d, bottom);
      if InRegion(b, plan[n]) {
        assert forall i :: 0 <= i < n ==> !InRegion(b, p[i]);
      }
    }
  }

  /**
   * `modify_row_height` on a closed table: cells off the row keep their
   * rectangles; a grid cell on the row has its top moved down by `dy1` when
   * its region starts on the row and its bottom by `dy2` when its region ends
   * on the row; no horizontal edge moves.
   */
  lemma RowHeightAt(L: GridLayout, t: Table, cache: map<Addr, Rect>, row: int, dy1: int, dy2: int, b: Addr)
    requires Closed(t)
    ensures var r, m := Lookup(L, cache, b), Lookup(L, RowHeightShift(L, t, cache, row, dy1, dy2), b);
      var g := Resolve(t, b);
      m.x1 == r.x1 && m.x2 == r.x2 &&
      (b.row != row ==> m.y1 == r.y1 && m.y2 == r.y2) &&
      (b.row == row && 0 <= b.col < L.cols ==>
         m.y1 == r.y1 + (if g.start.row == row then dy1 else 0) &&
         m.y2 == r.y2 + (if g.end.row == row then dy2 else 0))
  {
    var plan := RowPlanOwned(L, t, row, b);
    RowHeightByPlan(L, t, cache, plan, row, dy1, dy2, b);
  }

  lemma RowHeightByPlan(L: GridLayout, t: Table, cache: map<Addr, Rect>, plan: seq<Region>, row: int, dy1: int, dy2: int, b: Addr)
    requires plan == Dedup(RowRegions(t, row, L.cols))
    requires forall i :: 0 <= i < |plan| ==> Owned(t, plan[i]) && NonEmpty(plan[i])
    requires forall i :: 0 <= i < |plan| && InRegion(b, plan[i]) ==> plan[i] == Resolve(t, b)
    requires AtMostOneHolds(plan, b)
    requires b.row == row && 0 <= b.col < L.cols ==> Resolve(t, b) in plan
    requires InRegion(b, Resolve(t, b))
    ensures var r, m := Lookup(L, cache, b), Lookup(L, RowHeightShift(L, t, cache, row, dy1, dy2), b);
      var g := Resolve(t, b);
      m.x1 == r.x1 && m.x2 == r.x2 &&
      (b.row != row ==> m.y1 == r.y1 && m.y2 == r.y2) &&
      (b.row == row && 0 <= b.col < L.cols ==>
         m.y1 == r.y1 + (if g.start.row == row then dy1 else 0) &&
         m.y2 == r.y2 + (if g.end.row == row then dy2 else 0))
  {
    if b.row != row {
      RowHeightOffRow(L, t, cache, plan, row, dy1, dy2, b);
    } else {
      RowHeightOnRow(L, t, cache, plan, row, dy1, dy2, b);
    }
  }

  /** Off the adjusted row nothing moves. */
  lemma RowHeightOffRow(L: GridLayout, t: Table, cache: map<Addr, Rect>, plan: seq<Region>, row: int, dy1: int, dy2: int, b: Addr)
    requires plan == Dedup(RowRegions(t, row, L.cols))
    requires forall i :: 0 <= i < |plan| ==> Owned(t, plan[i]) && NonEmpty(plan[i])
    requires b.row != row
    ensures var r, m := Lookup(L, cache, b), Lookup(L, RowHeightShift(L, t, cache, row, dy1, dy2), b);
      m.x1 == r.x1 && m.x2 == r.x2 && m.y1 == r.y1 && m.y2 == r.y2
  {
    if !(dy1 == 0 && dy2 == 0) {
      assert RowHeightShift(L, t, cache, row, dy1, dy2) == ApplyRowPlan(L, t, cache, plan, row, dy1, dy2);
      ApplyRowPlanAt(L, t, cache, plan, row, dy1, dy2, b);
      PlanShiftOffRow(plan, b, row, dy1, false);
      PlanShiftOffRow(plan, b, row, dy2, true);
    }
  }

  /** On the adjusted row a cell inside the grid moves with its own region's edges. */
  lemma RowHeightOnRow(L: GridLayout, t: Table, cache: map<Addr, Rect>, plan: seq<Region>, row: int, dy1: int, dy2: int, b: Addr)
    requires plan == Dedup(RowRegions(t, row, L.cols))
    requires forall i :: 0 <= i < |plan| ==> Owned(t, plan[i]) && NonEmpty(plan[i])
    requires forall i :: 0 <= i < |plan| && InRegion(b, plan[i]) ==> plan[i] == Resolve(t, b)
    requires AtMostOneHolds(plan, b)
    requires b.row == row && 0 <= b.col < L.cols ==> Resolve(t, b) in plan
    requires InRegion(b, Resolve(t, b))
    requires b.row == row
    ensures var r, m := Lookup(L, cache, b), Lookup(L, RowHeightShift(L, t, cache, row, dy1, dy2), b);
      var g := Resolve(t, b);
      m.x1 == r.x1 && m.x2 == r.x2 &&
      (0 <= b.col < L.cols ==>
         m.y1 == r.y1 + (if g.start.row == row then dy1 else 0) &&
         m.y2 == r.y2 + (if g.end.row == row then dy2 else 0))
  {
    if !(dy1 == 0 && dy2 == 0) {
      assert RowHeightShift(L, t, cache, row, dy1, dy2) == ApplyRowPlan(L, t, cache, plan, row, dy1, dy2);
      ApplyRowPlanAt(L, t, cache, plan, row, dy1, dy2, b);
      if 0 <= b.col < L.cols {
        var g := Resolve(t, b);
        var i :| 0 <= i < |plan| && plan[i] == g;
        assert InRegion(b, plan[i]);
        PlanShiftOne(plan, b, row, dy1, false);
        PlanShiftOne(plan, b, row, dy2, true);
        assert PlanShift(plan, b, row, dy1, false) == if g.start.row == row then dy1 else 0;
        assert PlanShift(plan, b, row, dy2, true) == if g.end.row == row then dy2 else 0;
      }
    }
  }

  /** The plan of a closed table's row: owned, non-empty regions, the one holding a cell being that cell's region. */
  lemma RowPlanOwned(L: GridLayout, t: Table, row: int, b: Addr) returns (plan: seq<Region>)
    requires Closed(t)
    ensures plan == Dedup(RowRegions(t, row, L.cols))
    ensures forall i :: 0 <= i < |plan| ==> Owned(t, plan[i]) && NonEmpty(plan[i])
    ensures forall i :: 0 <= i < |plan| && InRegion(b, plan[i]) ==> plan[i] == Resolve(t, b)
    ensures AtMostOneHolds(plan, b)
    ensures b.row == row && 0 <= b.col < L.cols ==> Resolve(t, b) in plan
    ensures InRegion(b, Resolve(t, b))
  {
    var rr := RowRegions(t, row, L.cols);
    plan := Dedup(rr);
    forall i | 0 <= i < |plan|
      ensures Owned(t, plan[i]) && NonEmpty(plan[i])
        && (InRegion(b, plan[i]) ==> plan[i] == Resolve(t, b))
    {
      assert plan[i] in rr;
      var c :| 0 <= c < |rr| && rr[c] == plan[i];
      ClosedResolveStart(t, Addr(row, c));
      assert InRegion(Addr(row, c), plan[i]);
      if InRegion(b, plan[i]) {
        ClosedResolveMember(t, Addr(row, c), b);
      }
    }
    if b.row == row && 0 <= b.col < L.cols {
      assert rr[b.col] == Resolve(t, b);
    }
  }

  /**
   * What `get_required_row_height_for_text` learns from the drawer: the
   * measured width and height of the text at each font size up to 300.
   */
  type Measure = s: seq<(int, int)> | |s| == 301 witness seq(301, _ => (0, 0))

  /** The largest font size in `4..s` whose measured width fits, or 3 when none does: a linear scan from the top. */
  function LargestFit(measure: Measure, maxWidth: int, s: int): (f: int)
    requires 3 <= s <= 300
    ensures 3 <= f <= s
    ensures f >= 4 ==> measure[f].0 <= maxWidth
    ensures forall k :: f < k <= s ==> measure[k].0 > maxWidth
    decreases s
  {
    if s < 4 then 3
    else if measure[s].0 <= maxWidth then s
    else LargestFit(measure, maxWidth, s - 1)
  }

  /** The measured width never shrinks as the font grows, over the sizes searched. */
  ghost predicate WidthMonotone(measure: Measure)
  {
    forall a, b :: 4 <= a <= b <= 300 ==> measure[a].0 <= measure[b].0
  }

  /** The height `get_required_row_height_for_text` settles on: that of the largest fitting size, 0 when none fits. */
  function FitHeight(measure: Measure, maxWidth: int): int
  {
    var f := LargestFit(measure, maxWidth, 300);
    if f >= 4 then measure[f].1 else 0
  }

  /** `LargestFit` is the only size that fits while every larger size up to 300 does not. */
  lemma LargestFitIs(measure: Measure, maxWidth: int, f: int)
    requires 3 <= f <= 300
    requires f >= 4 ==> measure[f].0 <= maxWidth
    requires forall k :: f < k <= 300 ==> measure[k].0 > maxWidth
    ensures LargestFit(measure, maxWidth, 300) == f
  {
    LargestFitFrom(measure, maxWidth, f, 300);
  }

  lemma {:induction false} LargestFitFrom(measure: Measure, maxWidth: int, f: int, s: int)
    requires 3 <= f <= s <= 300
    requires f >= 4 ==> measure[f].0 <= maxWidth
    requires forall k :: f < k <= s ==> measure[k].0 > maxWidth
    ensures LargestFit(measure, maxWidth, s) == f
    decreases s
  {
    if s > f {
      LargestFitFrom(measure, maxWidth, f, s - 1);
    }
  }

  /**
   * What the search over font sizes may return: 0 or the height of a size in
   * 4..300 that fits, and, when widths grow with the font size, exactly the
   * height of the largest size that fits.
   */
  ghost predicate SearchedHeight(measure: Measure, maxWidth: int, h: int)
  {
    MeasuredFit(measure, maxWidth, h) && LargestFitWhenMonotone(measure, maxWidth, h)
  }

  /** `h` is 0 or the height of a size in 4..300 whose width fits. */
  ghost predicate MeasuredFit(measure: Measure, maxWidth: int, h: int)
  {
    h == 0 || exists s :: 4 <= s <= 300 && measure[s].0 <= maxWidth && h == measure[s].1
  }

  /** When widths grow with the font size, `h` is the height of the largest size that fits. */
  ghost predicate LargestFitWhenMonotone(measure: Measure, maxWidth: int, h: int)
  {
    WidthMonotone(measure) ==> h == FitHeight(measure, maxWidth)
  }

  /**
   * The binary search of `get_required_row_height_for_text` over font sizes
   * `lo..hi`: a size whose measured width fits raises the lower bound and
   * records its height, one that does not lowers the upper bound; `best` is
   * the height recorded so far.
   */
  function Bisect(measure: Measure, maxWidth: int, lo: int, hi: int, best: int): int
    requires 4 <= lo && hi <= 300
    decreases hi - lo + 1
  {
    if lo > hi then best
    else
      var mid := (lo + hi) / 2;
      if measure[mid].0 <= maxWidth then Bisect(measure, maxWidth, mid + 1, hi, measure[mid].1)
      else Bisect(measure, maxWidth, lo, mid - 1, best)
  }

  /** The text height the search settles on, starting from sizes 4..300 and height 0. */
  function SearchedTextHeight(measure: Measure, maxWidth: int): int
  {
    Bisect(measure, maxWidth, 4, 300, 0)
  }

  /**
   * From any state the search can be in, it ends with 0 or the height of a
   * size that fits, and, for widths growing with the font size, with the
   * height of the largest size that fits.
   */
  lemma {:induction false} BisectMeets(measure: Measure, maxWidth: int, lo: int, hi: int, best: int)
    requires 4 <= lo <= hi + 1 && 3 <= hi <= 300
    requires lo == 4 ==> best == 0
    requires lo > 4 ==> measure[lo - 1].0 <= maxWidth && best == measure[lo - 1].1
    requires WidthMonotone(measure) ==> forall k :: hi < k <= 300 ==> measure[k].0 > maxWidth
    ensures SearchedHeight(measure, maxWidth, Bisect(measure, maxWidth, lo, hi, best))
    decreases hi - lo + 1
  {
    if lo > hi {
      assert MeasuredFit(measure, maxWidth, best);
      if WidthMonotone(measure) {
        LargestFitIs(measure, maxWidth, lo - 1);
      }
    } else {
      var mid := (lo + hi) / 2;
      if measure[mid].0 <= maxWidth {
        BisectMeets(measure, maxWidth, mid + 1, hi, measure[mid].1);
      } else {
        BisectMeets(measure, maxWidth, lo, mid - 1, best);
      }
    }
  }

  /** The searched height is 0 or that of a fitting size, and the largest fitting size's when widths grow. */
  lemma SearchedTextHeightMeets(measure: Measure, maxWidth: int)
    ensures SearchedHeight(measure, maxWidth, SearchedTextHeight(measure, maxWidth))
  {
    BisectMeets(measure, maxWidth, 4, 300, 0);
  }

  /**
   * As wired, every probe gets the same answer: the search passes the box's
   * end point to `draw_text`, which then fits the text to the box and ignores
   * the font size it is given. The search then returns the fitted height when
   * it fits the width and 0 otherwise, whatever size it probes.
   */
  lemma ConstantMeasure(measure: Measure, w: int, h: int, maxWidth: int)
    requires forall s :: 4 <= s <= 300 ==> measure[s] == (w, h)
    ensures SearchedTextHeight(measure, maxWidth) == if w <= maxWidth then h else 0
  {
    SearchedTextHeightMeets(measure, maxWidth);
    LargestFitIs(measure, maxWidth, if w <= maxWidth then 300 else 3);
  }

  /** The row height for a box: the text height searched for the box's width plus both vertical margins. */
  function RequiredHeight(measure: Measure, box: Rect, marginY: int): int
  {
    SearchedTextHeight(measure, box.x2 - box.x1) + 2 * marginY
  }

  /**
   * The loop of `get_required_row_height_for_text`: the binary search for
   * the box's width, then the recorded text height plus the top and bottom
   * margins.
   */
  method SearchRowHeight(measure: Measure, box: Rect, marginY: int) returns (height: int)
    ensures height == RequiredHeight(measure, box, marginY)
  {
    var maxWidth := box.x2 - box.x1;
    var lo, hi := 4, 300;
    var bestH := 0;
    while lo <= hi
      invariant 4 <= lo && hi <= 300
      invariant Bisect(measure, maxWidth, lo, hi, bestH) == SearchedTextHeight(measure, maxWidth)
      decreases hi - lo + 1
    {
      var mid := (lo + hi) / 2;
      var (w, h) := measure[mid];
      if w <= maxWidth {
        bestH := h;
        lo := mid + 1;
      } else {
        hi := mid - 1;
      }
    }
    height := bestH + 2 * marginY;
  }

  /** The cache after `_get_or_compute_cell` visits the cells in order: each one not yet stored gets its computed rectangle. */
  function Filled(L: GridLayout, cache: map<Addr, Rect>, cells: seq<Addr>): map<Addr, Rect>
  {
    if cells == [] then cache
    else
      var p := Filled(L, cache, cells[..|cells| - 1]);
      var a := cells[|cells| - 1];
      p[a := Lookup(L, p, a)]
  }

  lemma FilledSnoc(L: GridLayout, cache: map<Addr, Rect>, cells: seq<Addr>, a: Addr)
    ensures Filled(L, cache, cells + [a]) == Filled(L, cache, cells)[a := Lookup(L, Filled(L, cache, cells), a)]
  {
    assert (cells + [a])[..|cells|] == cells;
  }

  /** Filling stores exactly the visited cells besides the old ones, and never changes what a cell looks up to. */
  lemma {:induction false} FilledKeeps(L: GridLayout, cache: map<Addr, Rect>, cells: seq<Addr>)
    ensures Filled(L, cache, cells).Keys == cache.Keys + set a | a in cells
    ensures SameLookups(L, Filled(L, cache, cells), cache)
    decreases |cells|
  {
    if cells != [] {
      var init := cells[..|cells| - 1];
      var a := cells[|cells| - 1];
      assert cells == init + [a];
      FilledKeeps(L, cache, init);
      StoreKeepsLookups(L, Filled(L, cache, init), a);
    }
  }

  /** The cache after `get_grid(start, end, convert_to_pixel=True)`: the region's cells filled, or nothing when it raises. */
  function Touched(L: GridLayout, t: Table, cache: map<Addr, Rect>, start: Target, end: Option<Addr>): map<Addr, Rect>
    requires MergeTable.Valid(t)
  {
    match GetGrid(t, start, end)
    case Err(_) => cache
    case Ok(g) => FilledRegion(L, cache, g)
  }

  /** The cache after one region has been converted. */
  function FilledRegion(L: GridLayout, cache: map<Addr, Rect>, g: Region): map<Addr, Rect>
  {
    Filled(L, cache, Cells(g))
  }

  lemma RectsSnoc(L: GridLayout, cache: map<Addr, Rect>, cells: seq<Addr>, a: Addr)
    ensures Rects(L, cache, cells + [a]) == Rects(L, cache, cells) + [Lookup(L, cache, a)]
  {
  }

  /** A pixel conversion never changes a cell's rectangle, so later conversions see the same boxes. */
  lemma TouchedKeeps(L: GridLayout, t: Table, cache: map<Addr, Rect>, start: Target, end: Option<Addr>)
    requires MergeTable.Valid(t)
    ensures SameLookups(L, Touched(L, t, cache, start, end), cache)
    ensures cache.Keys <= Touched(L, t, cache, start, end).Keys
  {
    match GetGrid(t, start, end)
    case Err(_) =>
    case Ok(g) => FilledKeeps(L, cache, Cells(g));
  }

  /**
   * One more item of `set_text_list`, with the cache as the earlier items
   * left it: the request list grows by that item's request, or stops at its error.
   */
  lemma TextListSnoc(L: GridLayout, t: Table, c0: map<Addr, Rect>, cache: map<Addr, Rect>, items: seq<TextItem>, i: nat)
    requires MergeTable.Valid(t) && SameLookups(L, cache, c0)
    requires i < |items| && Emit(TextSteps(L, t, c0, items)[..i]).1.None?
    ensures var steps := TextSteps(L, t, c0, items);
      var p, q := Emit(steps[..i]), Emit(steps[..i + 1]);
      match TextStep(L, t, cache, items[i])
      case Ok(e) => q == (p.0 + [e], None)
      case Err(x) => q == (p.0, Some(x))
  {
    TextStepSameLookups(L, t, cache, c0, items[i]);
    EmitSnoc(TextSteps(L, t, c0, items), i);
  }

  /**
   * One item of `set_text_list`: given the state the earlier items left
   * and the outcome of `set_text` on this one, either the list goes on with
   * this item's request appended, or it stops with this item's error.
   */
  lemma TextListStep(L: GridLayout, t: Table, c0: map<Addr, Rect>, c: map<Addr, Rect>, c': map<Addr, Rect>,
                     d0: seq<DrawEvent>, d: seq<DrawEvent>, d': seq<DrawEvent>, items: seq<TextItem>, i: nat, ri: Result<(), GridError>)
    requires MergeTable.Valid(t) && i < |items|
    requires SameLookups(L, c, c0) && c0.Keys <= c.Keys
    requires var steps := TextSteps(L, t, c0, items);
      Emit(steps[..i]).1.None? && d == d0 + Emit(steps[..i]).0
    requires c' == Touched(L, t, c, items[i].start, items[i].end)
    requires match TextStep(L, t, c, items[i])
      case Ok(e) => ri == Ok(()) && d' == d + [e]
      case Err(x) => ri == Err(x) && d' == d
    ensures SameLookups(L, c', c0) && c0.Keys <= c'.Keys
    ensures var steps := TextSteps(L, t, c0, items);
      match ri
      case Ok(_) => Emit(steps[..i + 1]).1.None? && d' == d0 + Emit(steps[..i + 1]).0
      case Err(x) => Emit(steps).1 == Some(x) && d' == d0 + Emit(steps).0
  {
    TouchedStillSame(L, t, c, c0, items[i].start, items[i].end);
    TextListSnoc(L, t, c0, c, items, i);
    if ri.Err? {
      EmitStops(TextSteps(L, t, c0, items), i + 1);
    }
  }

  /** Converting a region keeps every lookup a cache already agreed on with an earlier cache, and its keys. */
  lemma TouchedStillSame(L: GridLayout, t: Table, cache: map<Addr, Rect>, c0: map<Addr, Rect>, start: Target, end: Option<Addr>)
    requires MergeTable.Valid(t)
    requires SameLookups(L, cache, c0) && c0.Keys <= cache.Keys
    ensures SameLookups(L, Touched(L, t, cache, start, end), c0)
    ensures c0.Keys <= Touched(L, t, cache, start, end).Keys
  {
    TouchedKeeps(L, t, cache, start, end);
  }

  /** Two caches with the same lookups give the same text request. */
  lemma TextStepSameLookups(L: GridLayout, t: Table, c1: map<Addr, Rect>, c2: map<Addr, Rect>, item: TextItem)
    requires MergeTable.Valid(t) && SameLookups(L, c1, c2)
    ensures TextStep(L, t, c1, item) == TextStep(L, t, c2, item)
  {
    match GetGrid(t, item.start, item.end)
    case Err(_) =>
    case Ok(g) => PixelBoxSameLookups(L, c1, c2, g);
  }

  /** The cache after `draw_grid_borders` has converted the listed regions in order. */
  function FilledRegions(L: GridLayout, cache: map<Addr, Rect>, rs: seq<Region>): map<Addr, Rect>
  {
    if rs == [] then cache else Filled(L, FilledRegions(L, cache, rs[..|rs| - 1]), Cells(rs[|rs| - 1]))
  }

  /** `get_grid(start, end, convert_to_pixel=True)` with the region's own corners converts exactly that region. */
  lemma ExplicitEnd(L: GridLayout, t: Table, cache: map<Addr, Rect>, g: Region)
    requires MergeTable.Valid(t)
    ensures PixelsOf(L, t, cache, Cell(g.start), Some(g.end)) == BoxOf(L, cache, g)
    ensures Touched(L, t, cache, Cell(g.start), Some(g.end)) == Filled(L, cache, Cells(g))
  {
    assert Region(g.start, g.end) == g;
  }

  /**
   * A `TextGrid` over an image: the layout fixed at construction, the
   * `merged_cells` dictionary, the `grid2pixel` cache, and the requests made
   * to the image drawer so far.
   */
  class TextGrid {
    const layout: GridLayout
    var merged: Table
    var cache: map<Addr, Rect>
    var drawing: seq<DrawEvent>

    /** The layout divides, the dictionary is well formed, and every merged cell lies in its own region. */
    ghost predicate Valid()
      reads this`merged
    {
      MergeTable.Valid(merged) && Consistent(merged)
    }

    /** `TextGrid(rows, cols, drawer, margin_x, margin_y)` on an image of the given size. */
    constructor(width: int, height: int, rows: int, cols: int, marginX: int, marginY: int)
      requires width >= 0 && height >= 0 && rows > 0 && cols > 0
      ensures Valid()
      ensures layout == Layout(width, height, rows, cols, marginX, marginY)
      ensures merged == Empty && cache == map[] && drawing == []
    {
      layout := Layout(width, height, rows, cols, marginX, marginY);
      merged := Empty;
      cache := map[];
      drawing := [];
    }

    /** `_get_or_compute_cell`: the stored rectangle, computed and stored on first access. */
    method GetOrComputeCell(a: Addr) returns (r: Rect)
      requires Valid()
      modifies this
      ensures Valid() && merged == old(merged) && drawing == old(drawing)
      ensures r == Lookup(layout, old(cache), a)
      ensures cache == old(cache)[a := r]
    {
      if a !in cache {
        cache := cache[a := CellRect(layout, a)];
      }
      r := cache[a];
    }

    /**
     * `_grid_to_pixels`: visit the region's cells in the row-major order of
     * the source's two nested loops, then take the outermost edges.
     */
    method GridToPixels(g: Region) returns (r: Result<Rect, GridError>)
      requires Valid()
      modifies this
      ensures Valid() && merged == old(merged) && drawing == old(drawing)
      ensures r == BoxOf(layout, old(cache), g)
      ensures cache == Filled(layout, old(cache), Cells(g))
    {
      ghost var c0 := cache;
      var cells := Cells(g);
      var rects: seq<Rect> := [];
      var i := 0;
      while i < |cells|
        invariant 0 <= i <= |cells|
        invariant Valid() && merged == old(merged) && drawing == old(drawing)
        invariant cache == Filled(layout, c0, cells[..i])
        invariant rects == Rects(layout, c0, cells[..i])
      {
        var rect := GetOrComputeCell(cells[i]);
        assert cells[..i + 1] == cells[..i] + [cells[i]];
        assert rect == Lookup(layout, c0, cells[i]) by {
          FilledKeeps(layout, c0, cells[..i]);
        }
        assert cache == Filled(layout, c0, cells[..i + 1]) by {
          FilledSnoc(layout, c0, cells[..i], cells[i]);
        }
        assert rects + [rect] == Rects(layout, c0, cells[..i + 1]) by {
          RectsSnoc(layout, c0, cells[..i], cells[i]);
        }
        rects := rects + [rect];
        i := i + 1;
      }
      assert cells[..i] == cells;
      if rects == [] {
        r := Err(ValueError);
      } else {
        r := Ok(Hull(rects));
      }
    }

    /** `get_merged_cells_list`: each value the first time a key holds it, in key order. */
    method GetMergedCellsList() returns (ml: seq<Region>)
      requires Valid()
      ensures ml == MergedList(merged)
    {
      var d := Empty;
      ml := [];
      var i := 0;
      while i < |merged.keys|
        invariant 0 <= i <= |merged.keys|
        invariant d == FirstHolders(merged, i) && MergeTable.Valid(d)
        invariant ml == Values(d)
      {
        var k := merged.keys[i];
        var v := merged.regions[k];
        FirstHoldersNext(merged, i, d);
        if v !in d.regions.Values {
          d := Put(d, k, v);
          ml := ml + [v];
        }
        i := i + 1;
      }
      MergedDictValues(merged);
    }

    /** `get_merged_cells`: the entries whose value no earlier key holds. */
    method GetMergedCells() returns (d: Table)
      requires Valid()
      ensures d == MergedDict(merged)
    {
      d := Empty;
      var i := 0;
      while i < |merged.keys|
        invariant 0 <= i <= |merged.keys|
        invariant d == FirstHolders(merged, i)
      {
        var k := merged.keys[i];
        var v := merged.regions[k];
        FirstHoldersNext(merged, i, d);
        if v !in d.regions.Values {
          d := Put(d, k, v);
        }
        i := i + 1;
      }
    }

    /** `get_grid(start, end)` without pixel conversion. */
    method Locate(start: Target, end: Option<Addr>) returns (r: Result<Region, GridError>)
      requires Valid()
      ensures r == GetGrid(merged, start, end)
    {
      match end {
        case Some(e) =>
          match start {
            case Cell(s) => r := Ok(Region(s, e));
            case Index(_) => r := Err(TypeError);
            case Missing => r := Err(ValueError);
          }
        case None =>
          match start {
            case Cell(s) =>
              if s in merged.regions {
                r := Ok(merged.regions[s]);
              } else {
                r := Ok(Region(s, s));
              }
            case Index(i) =>
              var ml := GetMergedCellsList();
              match PyIndex(|ml|, i) {
                case Some(j) => r := Ok(ml[j]);
                case None => r := Err(IndexError);
              }
            case Missing => r := Err(ValueError);
          }
      }
    }

    /** `get_grid(start, end, convert_to_pixel=True)`. */
    method GetGridPixels(start: Target, end: Option<Addr>) returns (r: Result<Rect, GridError>)
      requires Valid()
      modifies this
      ensures Valid() && merged == old(merged) && drawing == old(drawing)
      ensures r == PixelsOf(layout, merged, old(cache), start, end)
      ensures cache == Touched(layout, merged, old(cache), start, end)
    {
      var loc := Locate(start, end);
      match loc
      case Err(e) => r := Err(e);
      case Ok(g) => r := GridToPixels(g);
    }
  
    /** `merge(start, end)`: map every cell of the rectangle, in row-major order, to the region. */
    method Merge(g: Region)
      requires Valid()
      modifies this
      ensures Valid() && cache == old(cache) && drawing == old(drawing)
      ensures merged == MergeTable.Merge(old(merged), g)
    {
      ghost var t0 := merged;
      var cells := Cells(g);
      var i := 0;
      while i < |cells|
        invariant 0 <= i <= |cells|
        invariant MergeTable.Valid(merged) && merged == MergeCells(t0, cells[..i], g)
        invariant cache == old(cache) && drawing == old(drawing)
      {
        MergeCellsSnoc(t0, cells, g, i);
        merged := Put(merged, cells[i], g);
        i := i + 1;
      }
      MergeCellsDone(t0, cells, g);
    }

    /** `merge_bulk(list)`: the merges in list order. */
    method MergeBulk(list: seq<Region>)
      requires Valid()
      modifies this
      ensures Valid() && cache == old(cache) && drawing == old(drawing)
      ensures merged == MergeAll(old(merged), list)
    {
      var i := 0;
      while i < |list|
        invariant 0 <= i <= |list|
        invariant Valid() && cache == old(cache) && drawing == old(drawing)
        invariant merged == MergeAll(old(merged), list[..i])
      {
        assert list[..i + 1][..i] == list[..i];
        Merge(list[i]);
        i := i + 1;
      }
      assert list[..i] == list;
    }

    /** One adjustment loop of `modify_grid2pixel`: fetch or compute each listed cell in turn and move one of its edges. */
    method MoveEdge(cells: seq<Addr>, e: Edge, d: int)
      requires Valid()
      modifies this
      ensures Valid() && merged == old(merged) && drawing == old(drawing)
      ensures cache == ShiftCells(layout, old(cache), cells, e, d)
    {
      var i := 0;
      while i < |cells|
        invariant 0 <= i <= |cells|
        invariant Valid() && merged == old(merged) && drawing == old(drawing)
        invariant cache == ShiftCells(layout, old(cache), cells[..i], e, d)
      {
        var r := GetOrComputeCell(cells[i]);
        cache := cache[cells[i] := Bump(r, e, d)];
        assert cells[..i + 1][..i] == cells[..i];
        i := i + 1;
      }
      assert cells[..i] == cells;
    }

    /**
     * `modify_grid2pixel(start, d_x1, d_y1, d_x2, d_y2)`: resolve the region,
     * then move its top row's tops, its bottom row's bottoms, its left
     * column's lefts and its right column's rights, each loop only when its
     * delta is non-zero.
     */
    method ModifyGrid2Pixel(start: Target, d: Deltas) returns (r: Result<(), GridError>)
      requires Valid()
      modifies this
      ensures Valid() && merged == old(merged) && drawing == old(drawing)
      ensures match GetGrid(merged, start, None)
        case Err(x) => r == Err(x) && cache == old(cache)
        case Ok(g) => r == Ok(()) && cache == EdgeShift(layout, old(cache), g, d)
    {
      var loc := Locate(start, None);
      if loc.Err? {
        return Err(loc.error);
      }
      var g := loc.value;
      if d.dy1 != 0 {
        MoveEdge(RowSpan(g.start.row, g.start.col, g.end.col), Top, d.dy1);
      }
      if d.dy2 != 0 {
        MoveEdge(RowSpan(g.end.row, g.start.col, g.end.col), Bottom, d.dy2);
      }
      if d.dx1 != 0 {
        MoveEdge(ColSpan(g.start.col, g.start.row, g.end.row), Left, d.dx1);
      }
      if d.dx2 != 0 {
        MoveEdge(ColSpan(g.end.col, g.start.row, g.end.row), Right, d.dx2);
      }
      r := Ok(());
    }

    /**
     * `modify_row_height(row, delta_y1, delta_y2)`: walk the row's columns,
     * and adjust each region met for the first time, through its top-left
     * cell.
     */
    method ModifyRowHeight(row: int, dy1: int, dy2: int)
      requires Valid()
      modifies this
      ensures Valid() && merged == old(merged) && drawing == old(drawing)
      ensures cache == RowHeightShift(layout, merged, old(cache), row, dy1, dy2)
    {
      if dy1 == 0 && dy2 == 0 {
        return;
      }
      var modified: set<Region> := {};
      ghost var plan: seq<Region> := [];
      var col := 0;
      while col < layout.cols
        invariant 0 <= col <= layout.cols
        invariant Valid() && merged == old(merged) && drawing == old(drawing)
        invariant plan == Dedup(RowRegions(merged, row, col))
        invariant forall g :: g in modified <==> g in plan
        invariant cache == ApplyRowPlan(layout, merged, old(cache), plan, row, dy1, dy2)
      {
        var loc := Locate(Cell(Addr(row, col)), None);
        var g := loc.value;
        RowPlanStep(layout, merged, old(cache), row, col, dy1, dy2, plan);
        assert g in modified <==> g in plan;
        if g !in modified {
          var _ := ModifyGrid2Pixel(Cell(g.start), RowDeltas(g, row, dy1, dy2));
          modified := modified + {g};
          plan := plan + [g];
        }
        col := col + 1;
      }
    }

    /** `set_text(start, text, end, anchor)`: resolve the box, then ask for the text at its anchor point. */
    method SetText(item: TextItem) returns (r: Result<(), GridError>)
      requires Valid()
      modifies this
      ensures Valid() && merged == old(merged)
      ensures cache == Touched(layout, merged, old(cache), item.start, item.end)
      ensures match TextStep(layout, merged, old(cache), item)
        case Ok(e) => r == Ok(()) && drawing == old(drawing) + [e]
        case Err(x) => r == Err(x) && drawing == old(drawing)
    {
      if item.start.Missing? {
        assert GetGrid(merged, item.start, item.end) == Err(ValueError);
        return Err(ValueError);
      }
      var box := GetGridPixels(item.start, item.end);
      var request := TextEvent(item, box);
      match request {
        case Err(x) =>
          r := Err(x);
        case Ok(e) =>
          drawing := drawing + [e];
          r := Ok(());
      }
    }

    /** `set_text_list(items)`: `set_text` for each item in order, stopping at the first that raises. */
    method SetTextList(items: seq<TextItem>) returns (r: Result<(), GridError>)
      requires Valid()
      modifies this
      ensures Valid() && merged == old(merged)
      ensures var out := Emit(TextSteps(layout, merged, old(cache), items));
        drawing == old(drawing) + out.0 && r == (if out.1.Some? then Err(out.1.value) else Ok(()))
      ensures SameLookups(layout, cache, old(cache)) && old(cache).Keys <= cache.Keys
    {
      ghost var steps := TextSteps(layout, merged, old(cache), items);
      var i := 0;
      while i < |items|
        invariant 0 <= i <= |items|
        invariant Valid() && merged == old(merged)
        invariant SameLookups(layout, cache, old(cache)) && old(cache).Keys <= cache.Keys
        invariant Emit(steps[..i]).1.None?
        invariant drawing == old(drawing) + Emit(steps[..i]).0
      {
        ghost var c, d := cache, drawing;
        var ri := SetText(items[i]);
        TextListStep(layout, merged, old(cache), c, cache, old(drawing), d, drawing, items, i, ri);
        if ri.Err? {
          return ri;
        }
        i := i + 1;
      }
      assert steps[..i] == steps;
      r := Ok(());
    }

    /**
     * `draw_grid_borders(color, width)`: walk the grid's cells row by row;
     * a cell not yet drawn has its whole region marked as drawn and outlined.
     */
    method DrawGridBorders(color: string, lineWidth: int)
      requires Valid()
      modifies this
      ensures Valid() && merged == old(merged)
      ensures var rs := BorderScan(merged, GridCells(layout)).1;
        AllNonEmpty(rs) && drawing == old(drawing) + Outlines(layout, old(cache), rs, color, lineWidth) &&
        cache == FilledRegions(layout, old(cache), rs)
    {
      WalkBorders(GridCells(layout), color, lineWidth);
    }

    /** The loops of `draw_grid_borders` over the given cells, in order. */
    method WalkBorders(cells: seq<Addr>, color: string, lineWidth: int)
      requires Valid()
      modifies this
      ensures Valid() && merged == old(merged)
      ensures var rs := BorderScan(merged, cells).1;
        AllNonEmpty(rs) && drawing == old(drawing) + Outlines(layout, old(cache), rs, color, lineWidth) &&
        cache == FilledRegions(layout, old(cache), rs)
    {
      var drawn: set<Addr> := {};
      var i := 0;
      while i < |cells|
        invariant 0 <= i <= |cells|
        invariant Valid() && merged == old(merged)
        invariant Walked(layout, merged, old(cache), old(drawing), cells, i, color, lineWidth, drawn, cache, drawing)
      {
        drawn := BorderVisit(cells, i, old(cache), old(drawing), color, lineWidth, drawn);
        i := i + 1;
      }
      WalkedAll(layout, merged, old(cache), old(drawing), cells, color, lineWidth, drawn, cache, drawing);
    }

    /**
     * The body of `draw_grid_borders`' loops for the cell `cells[i]`: skip it
     * when marked, else mark its region and outline the region's pixel box.
     */
    method BorderVisit(cells: seq<Addr>, i: nat, ghost c0: map<Addr, Rect>, ghost d0: seq<DrawEvent>,
                       color: string, lineWidth: int, drawn: set<Addr>) returns (drawn': set<Addr>)
      requires Valid() && i < |cells|
      requires Walked(layout, merged, c0, d0, cells, i, color, lineWidth, drawn, cache, drawing)
      modifies this
      ensures Valid() && merged == old(merged)
      ensures Walked(layout, merged, c0, d0, cells, i + 1, color, lineWidth, drawn', cache, drawing)
    {
      if cells[i] in drawn {
        BorderWalkSkip(layout, merged, c0, d0, cells, i, color, lineWidth, drawn, cache, drawing);
        drawn' := drawn;
      } else {
        drawn' := BorderOutline(cells, i, c0, d0, color, lineWidth, drawn);
      }
    }

    /** An unmarked cell: mark its region and outline the region's pixel box. */
    method BorderOutline(cells: seq<Addr>, i: nat, ghost c0: map<Addr, Rect>, ghost d0: seq<DrawEvent>,
                         color: string, lineWidth: int, drawn: set<Addr>) returns (drawn': set<Addr>)
      requires Valid() && i < |cells| && cells[i] !in drawn
      requires Walked(layout, merged, c0, d0, cells, i, color, lineWidth, drawn, cache, drawing)
      modifies this
      ensures Valid() && merged == old(merged)
      ensures Walked(layout, merged, c0, d0, cells, i + 1, color, lineWidth, drawn', cache, drawing)
    {
      ghost var c, d := cache, drawing;
      var g, box := RegionBox(cells[i]);
      drawn' := drawn + CellSet(g);
      drawing := drawing + [Rectangle(box, color, lineWidth)];
      BorderWalkDraw(layout, merged, c0, d0, cells, i, color, lineWidth, drawn, c, d, g, box, drawn', cache, drawing);
    }

    /** `get_grid(key)` and then `get_grid(start_grid, end_grid, convert_to_pixel=True)`: the cell's region and its pixel box. */
    method RegionBox(a: Addr) returns (g: Region, box: Rect)
      requires Valid()
      modifies this
      ensures Valid() && merged == old(merged) && drawing == old(drawing)
      ensures g == Resolve(merged, a) && InRegion(a, g)
      ensures cache == Filled(layout, old(cache), Cells(g)) && BoxOf(layout, old(cache), g) == Ok(box)
    {
      var loc := Locate(Cell(a), None);
      ResolveCovers(merged, a);
      g := loc.value;
      ExplicitEnd(layout, merged, cache, g);
      var pixels := GetGridPixels(Cell(g.start), Some(g.end));
      box := pixels.value;
    }

    /** `paste_image(start, image, end, anchor)`: resolve the box and paste the image at `PasteBox`. */
    method PasteImage(start: Target, image: ImageSize, end: Option<Addr>, anchor: string) returns (r: Result<(), GridError>)
      requires Valid()
      modifies this
      ensures Valid() && merged == old(merged)
      ensures cache == Touched(layout, merged, old(cache), start, end)
      ensures match PixelsOf(layout, merged, old(cache), start, end)
        case Ok(b) => r == Ok(()) && drawing == old(drawing) + [Paste(image, PasteBox(b, image, anchor))]
        case Err(x) => r == Err(x) && drawing == old(drawing)
    {
      var box := GetGridPixels(start, end);
      match box {
        case Err(x) =>
          r := Err(x);
        case Ok(b) =>
          drawing := drawing + [Paste(image, PasteBox(b, image, anchor))];
          r := Ok(());
      }
    }

    /**
     * `get_required_row_height_for_text(start, text, end)`: 0 for empty text;
     * otherwise the region's pixel box gives the width to fit, the search
     * over font sizes gives a text height, and both vertical margins are
     * added. `measure` is the drawer's measurement of this text in this box
     * at a font size.
     */
    method GetRequiredRowHeightForText(start: Target, text: string, end: Option<Addr>, measure: Measure)
      returns (r: Result<int, GridError>)
      requires Valid()
      modifies this
      ensures Valid() && merged == old(merged) && drawing == old(drawing)
      ensures text == [] ==> r == Ok(0) && cache == old(cache)
      ensures text != [] ==> cache == Touched(layout, merged, old(cache), start, end)
      ensures text != [] ==> match PixelsOf(layout, merged, old(cache), start, end)
        case Err(x) => r == Err(x)
        case Ok(b) => r == Ok(RequiredHeight(measure, b, layout.marginY))
    {
      if text == [] {
        return Ok(0);
      }
      var box := GetGridPixels(start, end);
      match box {
        case Err(x) =>
          r := Err(x);
        case Ok(b) =>
          var height := SearchRowHeight(measure, b, layout.marginY);
          r := Ok(height);
      }
    }

    /** `get_dimensions(start, end)`: resolve the region, then measure it with its end given explicitly. */
    method GetDimensions(start: Target, end: Option<Addr>) returns (r: Result<Dimensions, GridError>)
      requires Valid()
      modifies this
      ensures Valid() && merged == old(merged) && drawing == old(drawing)
      ensures r == DimensionsOf(layout, merged, old(cache), start, end)
      ensures cache == Touched(layout, merged, old(cache), start, end)
    {
      var loc := Locate(start, end);
      if loc.Err? {
        assert DimensionsOf(layout, merged, cache, start, end) == Err(loc.error);
        return Err(loc.error);
      }
      var g := loc.value;
      ExplicitEnd(layout, merged, cache, g);
      var box := GetGridPixels(Cell(g.start), Some(g.end));
      assert box == BoxOf(layout, old(cache), g);
      r := Measured(g, box);
    }
  }
}
