/**
 * Cell geometry of `TextGrid` (piltext/text_grid.py): the truncating
 * per-cell formula, the row-major walk over a region, the min/max union of
 * cached cell rectangles, and the edge adjustments applied to the cache.
 */
module GridGeometry {
  import opened Wrappers
  import opened PyLib

  /** A grid address `(row, col)`; like the source, the model does not bound it. */
  datatype Addr = Addr(row: int, col: int)

  /** A region as `merged_cells` stores it: its top-left and bottom-right addresses. */
  datatype Region = Region(start: Addr, end: Addr)

  /** A cached pixel rectangle `[x1, y1, x2, y2]`. */
  datatype Rect = Rect(x1: int, y1: int, x2: int, y2: int)

  /** Canvas size, row and column counts and the per-cell margins of a grid. */
  datatype Layout = Layout(width: int, height: int, rows: int, cols: int, marginX: int, marginY: int)

  /** Image sizes are never negative, and a grid with no rows or columns divides by zero. */
  predicate ValidLayout(L: Layout)
  {
    L.width >= 0 && L.height >= 0 && L.rows > 0 && L.cols > 0
  }

  /** A layout the source can divide by: the one every grid operation works on. */
  type GridLayout = L: Layout | ValidLayout(L) witness Layout(0, 0, 1, 1, 0, 0)

  predicate InRegion(a: Addr, g: Region)
  {
    g.start.row <= a.row <= g.end.row && g.start.col <= a.col <= g.end.col
  }

  predicate NonEmpty(g: Region)
  {
    g.start.row <= g.end.row && g.start.col <= g.end.col
  }

  predicate NoDup<T(==)>(s: seq<T>)
  {
    forall i, j :: 0 <= i < j < |s| ==> s[i] != s[j]
  }

  /**
   * A pixel edge `int(i * (total / parts) + margin)`: `total / parts` is the
   * cell size by true division, so the edge is the exact quotient
   * `(i * total + margin * parts) / parts` truncated toward zero.
   */
  function GridLine(i: int, total: int, parts: int, margin: int): int
    requires parts > 0
  {
    TruncDiv(i * total + margin * parts, parts)
  }

  /** The rectangle `_get_or_compute_cell` computes on first access: each edge truncated on its own. */
  function CellRect(L: GridLayout, a: Addr): Rect
  {
    Rect(GridLine(a.col, L.width, L.cols, L.marginX),
         GridLine(a.row, L.height, L.rows, L.marginY),
         GridLine(a.col + 1, L.width, L.cols, -L.marginX),
         GridLine(a.row + 1, L.height, L.rows, -L.marginY))
  }

  /** `_grid_to_pixels_old`: the closed form from the region's two corners alone. */
  function CornerRect(L: GridLayout, g: Region): Rect
  {
    Rect(GridLine(g.start.col, L.width, L.cols, L.marginX),
         GridLine(g.start.row, L.height, L.rows, L.marginY),
         GridLine(g.end.col + 1, L.width, L.cols, -L.marginX),
         GridLine(g.end.row + 1, L.height, L.rows, -L.marginY))
  }

  /** The addresses `(r, c0) .. (r, c1)` in column order, as `range(c0, c1 + 1)` visits them. */
  function RowSpan(r: int, c0: int, c1: int): (s: seq<Addr>)
    ensures |s| == Max(c1 - c0 + 1, 0)
    ensures forall i :: 0 <= i < |s| ==> s[i] == Addr(r, c0 + i)
    ensures forall a :: a in s <==> a.row == r && c0 <= a.col <= c1
    ensures NoDup(s)
    decreases c1 - c0
  {
    if c1 < c0 then [] else RowSpan(r, c0, c1 - 1) + [Addr(r, c1)]
  }

  /** The addresses `(r0, c) .. (r1, c)` in row order. */
  function ColSpan(c: int, r0: int, r1: int): (s: seq<Addr>)
    ensures |s| == Max(r1 - r0 + 1, 0)
    ensures forall i :: 0 <= i < |s| ==> s[i] == Addr(r0 + i, c)
    ensures forall a :: a in s <==> a.col == c && r0 <= a.row <= r1
    ensures NoDup(s)
    decreases r1 - r0
  {
    if r1 < r0 then [] else ColSpan(c, r0, r1 - 1) + [Addr(r1, c)]
  }

  /** The addresses of rows `r0..r1` and columns `c0..c1` in the row-major order of the source's nested loops. */
  function Span(r0: int, r1: int, c0: int, c1: int): (s: seq<Addr>)
    ensures forall a :: a in s <==> r0 <= a.row <= r1 && c0 <= a.col <= c1
    decreases r1 - r0
  {
    if r1 < r0 then [] else Span(r0, r1 - 1, c0, c1) + RowSpan(r1, c0, c1)
  }

  /** The cells of a region, row-major. */
  function Cells(g: Region): seq<Addr>
  {
    Span(g.start.row, g.end.row, g.start.col, g.end.col)
  }

  /** The walk visits exactly the region's cells, and none when the region is empty. */
  lemma CellsAre(g: Region)
    ensures forall a :: a in Cells(g) <==> InRegion(a, g)
    ensures Cells(g) == [] <==> !NonEmpty(g)
  {
    var s := Cells(g);
    assert NonEmpty(g) ==> g.start in s;
    assert s != [] ==> s[0] in s;
  }

  /** `(min x1s, min y1s), (max x2s, max y2s)`: the smallest rectangle holding every given one. */
  function Hull(rs: seq<Rect>): (h: Rect)
    requires |rs| > 0
    ensures forall i :: 0 <= i < |rs| ==>
      h.x1 <= rs[i].x1 && h.y1 <= rs[i].y1 && rs[i].x2 <= h.x2 && rs[i].y2 <= h.y2
    ensures exists i :: 0 <= i < |rs| && h.x1 == rs[i].x1
    ensures exists i :: 0 <= i < |rs| && h.y1 == rs[i].y1
    ensures exists i :: 0 <= i < |rs| && h.x2 == rs[i].x2
    ensures exists i :: 0 <= i < |rs| && h.y2 == rs[i].y2
    decreases |rs|
  {
    if |rs| == 1 then rs[0]
    else
      var t := Hull(rs[..|rs| - 1]);
      var r := rs[|rs| - 1];
      Rect(Min(t.x1, r.x1), Min(t.y1, r.y1), Max(t.x2, r.x2), Max(t.y2, r.y2))
  }

  /** The rectangle a cell has: its cached one once computed, the formula's before. */
  function Lookup(L: GridLayout, cache: map<Addr, Rect>, a: Addr): Rect
  {
    if a in cache then cache[a] else CellRect(L, a)
  }

  function Rects(L: GridLayout, cache: map<Addr, Rect>, cells: seq<Addr>): (rs: seq<Rect>)
    ensures |rs| == |cells|
    ensures forall i :: 0 <= i < |cells| ==> rs[i] == Lookup(L, cache, cells[i])
  {
    seq(|cells|, i requires 0 <= i < |cells| => Lookup(L, cache, cells[i]))
  }

  /** `_grid_to_pixels`: the union of the cells' rectangles; None where the source's `min([])` raises. */
  function PixelBox(L: GridLayout, cache: map<Addr, Rect>, g: Region): Option<Rect>
  {
    var cs := Cells(g);
    if cs == [] then None else Some(Hull(Rects(L, cache, cs)))
  }

  /** Two caches that give every cell the same rectangle: they differ at most in which untouched cells are stored. */
  ghost predicate SameLookups(L: GridLayout, c1: map<Addr, Rect>, c2: map<Addr, Rect>)
  {
    forall a :: Lookup(L, c1, a) == Lookup(L, c2, a)
  }

  /** Storing a cell's current rectangle, as `_get_or_compute_cell` does on first access, changes no lookup. */
  lemma StoreKeepsLookups(L: GridLayout, cache: map<Addr, Rect>, a: Addr)
    ensures SameLookups(L, cache[a := Lookup(L, cache, a)], cache)
  {
  }

  /** The union box depends only on what the cache gives each cell. */
  lemma PixelBoxSameLookups(L: GridLayout, c1: map<Addr, Rect>, c2: map<Addr, Rect>, g: Region)
    requires SameLookups(L, c1, c2)
    ensures PixelBox(L, c1, g) == PixelBox(L, c2, g)
  {
    assert Rects(L, c1, Cells(g)) == Rects(L, c2, Cells(g));
  }

  /** A cache none of whose entries has been adjusted since it was computed. */
  predicate Unmodified(L: GridLayout, cache: map<Addr, Rect>)
  {
    forall a :: a in cache ==> cache[a] == CellRect(L, a)
  }

  /** The region's box is the union: it bounds every cell of the region, and each edge is some cell's edge. */
  lemma PixelBoxIsUnion(L: GridLayout, cache: map<Addr, Rect>, g: Region) returns (a1: Addr, a2: Addr, a3: Addr, a4: Addr)
    requires NonEmpty(g)
    ensures PixelBox(L, cache, g).Some?
    ensures forall a :: InRegion(a, g) ==> Bounds(PixelBox(L, cache, g).value, Lookup(L, cache, a))
    ensures InRegion(a1, g) && PixelBox(L, cache, g).value.x1 == Lookup(L, cache, a1).x1
    ensures InRegion(a2, g) && PixelBox(L, cache, g).value.y1 == Lookup(L, cache, a2).y1
    ensures InRegion(a3, g) && PixelBox(L, cache, g).value.x2 == Lookup(L, cache, a3).x2
    ensures InRegion(a4, g) && PixelBox(L, cache, g).value.y2 == Lookup(L, cache, a4).y2
  {
    var cs := Cells(g);
    var rs := Rects(L, cache, cs);
    var b := Hull(rs);
    CellsAre(g);
    forall a | InRegion(a, g)
      ensures Bounds(b, Lookup(L, cache, a))
    {
      var i :| 0 <= i < |cs| && cs[i] == a;
      assert rs[i] == Lookup(L, cache, a);
    }
    var i1 :| 0 <= i1 < |rs| && b.x1 == rs[i1].x1;
    var i2 :| 0 <= i2 < |rs| && b.y1 == rs[i2].y1;
    var i3 :| 0 <= i3 < |rs| && b.x2 == rs[i3].x2;
    var i4 :| 0 <= i4 < |rs| && b.y2 == rs[i4].y2;
    a1, a2, a3, a4 := cs[i1], cs[i2], cs[i3], cs[i4];
    assert a1 in cs && a2 in cs && a3 in cs && a4 in cs;
  }

  /** `outer` contains `inner`. */
  predicate Bounds(outer: Rect, inner: Rect)
  {
    outer.x1 <= inner.x1 && outer.y1 <= inner.y1 && inner.x2 <= outer.x2 && inner.y2 <= outer.y2
  }

  /** A rectangle that bounds every cell of the region and whose edges are all attained is the region's box. */
  lemma PixelBoxIs(L: GridLayout, cache: map<Addr, Rect>, g: Region, b: Rect, ax1: Addr, ay1: Addr, ax2: Addr, ay2: Addr)
    requires NonEmpty(g)
    requires forall a :: InRegion(a, g) ==> Bounds(b, Lookup(L, cache, a))
    requires InRegion(ax1, g) && Lookup(L, cache, ax1).x1 == b.x1
    requires InRegion(ay1, g) && Lookup(L, cache, ay1).y1 == b.y1
    requires InRegion(ax2, g) && Lookup(L, cache, ax2).x2 == b.x2
    requires InRegion(ay2, g) && Lookup(L, cache, ay2).y2 == b.y2
    ensures PixelBox(L, cache, g) == Some(b)
  {
    var a1, a2, a3, a4 := PixelBoxIsUnion(L, cache, g);
    var h := PixelBox(L, cache, g).value;
    assert h.x1 == b.x1 by { assert Bounds(h, Lookup(L, cache, ax1)); assert Bounds(b, Lookup(L, cache, a1)); }
    assert h.y1 == b.y1 by { assert Bounds(h, Lookup(L, cache, ay1)); assert Bounds(b, Lookup(L, cache, a2)); }
    assert h.x2 == b.x2 by { assert Bounds(h, Lookup(L, cache, ax2)); assert Bounds(b, Lookup(L, cache, a3)); }
    assert h.y2 == b.y2 by { assert Bounds(h, Lookup(L, cache, ay2)); assert Bounds(b, Lookup(L, cache, a4)); }
  }

  /** With a non-negative total, grid lines keep the order of their indices. */
  lemma EdgeMonotone(total: int, parts: int, margin: int, a: int, b: int)
    requires 0 <= total && 0 < parts && a <= b
    ensures GridLine(a, total, parts, margin) <= GridLine(b, total, parts, margin)
  {
    var offset := margin * parts;
    MulMonotone(a, b, total);
    var n1 := a * total + offset;
    var n2 := b * total + offset;
    TruncDivMonotone(n1, n2, parts);
  }

  /** Every cell of a region lies inside the region's corner rectangle. */
  lemma CellInCorner(L: GridLayout, g: Region, a: Addr)
    requires InRegion(a, g)
    ensures Bounds(CornerRect(L, g), CellRect(L, a))
  {
    EdgeMonotone(L.width, L.cols, L.marginX, g.start.col, a.col);
    EdgeMonotone(L.height, L.rows, L.marginY, g.start.row, a.row);
    EdgeMonotone(L.width, L.cols, -L.marginX, a.col + 1, g.end.col + 1);
    EdgeMonotone(L.height, L.rows, -L.marginY, a.row + 1, g.end.row + 1);
  }

  /** With no adjusted entry, every lookup is the computed cell. */
  lemma LookupUnmodified(L: GridLayout, cache: map<Addr, Rect>, a: Addr)
    requires Unmodified(L, cache)
    ensures Lookup(L, cache, a) == CellRect(L, a)
  {
  }

  /**
   * On a cache with no adjusted entry, the union over the cached cells equals
   * the closed form from the region's corners (`_grid_to_pixels_old`),
   * because truncation is monotone.
   */
  lemma UnionMatchesCornerFormula(L: GridLayout, cache: map<Addr, Rect>, g: Region)
    requires Unmodified(L, cache) && NonEmpty(g)
    ensures PixelBox(L, cache, g) == Some(CornerRect(L, g))
  {
    var b := CornerRect(L, g);
    forall a | InRegion(a, g)
      ensures Bounds(b, Lookup(L, cache, a))
    {
      CellInCorner(L, g, a);
      LookupUnmodified(L, cache, a);
    }
    LookupUnmodified(L, cache, g.start);
    LookupUnmodified(L, cache, g.end);
    PixelBoxIs(L, cache, g, b, g.start, g.start, g.end, g.end);
  }

  /** The four edges `modify_grid2pixel` can move. */
  datatype Edge = Left | Top | Right | Bottom

  /** `r` with its left and top edges moved out by `l`, `t` and its right and bottom edges by `rt`, `b`. */
  function Moved(r: Rect, l: int, t: int, rt: int, b: int): Rect
  {
    Rect(r.x1 - l, r.y1 - t, r.x2 + rt, r.y2 + b)
  }

  /** `d` when the edge is moved, 0 when it is not. */
  function Amount(moved: bool, d: int): int
  {
    if moved then d else 0
  }

  /** Moving one edge at a time, in `modify_grid2pixel`'s order, moves all four at once. */
  lemma MovedFour(r: Rect, t: int, b: int, l: int, rt: int)
    ensures Moved(Moved(Moved(Moved(r, 0, t, 0, 0), 0, 0, 0, b), l, 0, 0, 0), 0, 0, rt, 0) == Moved(r, l, t, rt, b)
  {
  }

  /** `x1 -= d`, `y1 -= d`, `x2 += d` or `y2 += d`: positive deltas widen the rectangle. */
  function Bump(r: Rect, e: Edge, d: int): Rect
  {
    match e
    case Left => r.(x1 := r.x1 - d)
    case Top => r.(y1 := r.y1 - d)
    case Right => r.(x2 := r.x2 + d)
    case Bottom => r.(y2 := r.y2 + d)
  }

  /** One adjustment loop of `modify_grid2pixel`: fetch-or-compute each cell in turn and move one edge. */
  function ShiftCells(L: GridLayout, cache: map<Addr, Rect>, cells: seq<Addr>, e: Edge, d: int): (c: map<Addr, Rect>)
  {
    if cells == [] then cache
    else
      var p := ShiftCells(L, cache, cells[..|cells| - 1], e, d);
      var a := cells[|cells| - 1];
      p[a := Bump(Lookup(L, p, a), e, d)]
  }

  /** Each listed cell has exactly that edge moved once; every other cell keeps its rectangle. */
  lemma {:induction false} ShiftCellsAt(L: GridLayout, cache: map<Addr, Rect>, cells: seq<Addr>, e: Edge, d: int, a: Addr)
    requires NoDup(cells)
    ensures Lookup(L, ShiftCells(L, cache, cells, e, d), a)
         == if a in cells then Bump(Lookup(L, cache, a), e, d) else Lookup(L, cache, a)
    decreases |cells|
  {
    if cells != [] {
      var init := cells[..|cells| - 1];
      var last := cells[|cells| - 1];
      assert cells == init + [last];
      assert last !in init;
      ShiftCellsAt(L, cache, init, e, d, a);
    }
  }

  /** One guarded loop of `modify_grid2pixel`: `if d != 0`, move edge `e` of every listed cell by `d`. */
  function ShiftIf(L: GridLayout, cache: map<Addr, Rect>, cells: seq<Addr>, e: Edge, d: int): (c: map<Addr, Rect>)
  {
    if d != 0 then ShiftCells(L, cache, cells, e, d) else cache
  }

  /** After one guarded loop, a cell's rectangle has edge `e` moved by `d` exactly when the loop lists the cell. */
  lemma ShiftIfAt(L: GridLayout, cache: map<Addr, Rect>, cells: seq<Addr>, e: Edge, d: int, a: Addr)
    requires NoDup(cells)
    ensures Lookup(L, ShiftIf(L, cache, cells, e, d), a)
         == Moved(Lookup(L, cache, a), Amount(a in cells && e == Left, d), Amount(a in cells && e == Top, d),
                  Amount(a in cells && e == Right, d), Amount(a in cells && e == Bottom, d))
  {
    var r := Lookup(L, cache, a);
    if d != 0 {
      ShiftCellsAt(L, cache, cells, e, d, a);
    } else {
      assert r == Rect(r.x1, r.y1, r.x2, r.y2);
    }
  }

  /** The deltas `d_x1, d_y1, d_x2, d_y2` of `modify_grid2pixel`. */
  datatype Deltas = Deltas(dx1: int, dy1: int, dx2: int, dy2: int)

  /** The cache after `modify_grid2pixel` on region `g`: the four guarded loops in the source's order. */
  function EdgeShift(L: GridLayout, cache: map<Addr, Rect>, g: Region, d: Deltas): map<Addr, Rect>
  {
    var c1 := ShiftIf(L, cache, RowSpan(g.start.row, g.start.col, g.end.col), Top, d.dy1);
    var c2 := ShiftIf(L, c1, RowSpan(g.end.row, g.start.col, g.end.col), Bottom, d.dy2);
    var c3 := ShiftIf(L, c2, ColSpan(g.start.col, g.start.row, g.end.row), Left, d.dx1);
    ShiftIf(L, c3, ColSpan(g.end.col, g.start.row, g.end.row), Right, d.dx2)
  }

  predicate OnTopEdge(a: Addr, g: Region) { a.row == g.start.row && g.start.col <= a.col <= g.end.col }
  predicate OnBottomEdge(a: Addr, g: Region) { a.row == g.end.row && g.start.col <= a.col <= g.end.col }
  predicate OnLeftEdge(a: Addr, g: Region) { a.col == g.start.col && g.start.row <= a.row <= g.end.row }
  predicate OnRightEdge(a: Addr, g: Region) { a.col == g.end.col && g.start.row <= a.row <= g.end.row }

  /**
   * `modify_grid2pixel` moves only the region's outer edges: the top of the
   * start-row cells by `-dy1`, the bottom of the end-row cells by `+dy2`, the
   * left of the start-column cells by `-dx1`, the right of the end-column
   * cells by `+dx2`; every other coordinate of every cell is unchanged.
   */
  lemma EdgeShiftAt(L: GridLayout, cache: map<Addr, Rect>, g: Region, d: Deltas, a: Addr)
    ensures Lookup(L, EdgeShift(L, cache, g, d), a)
         == Moved(Lookup(L, cache, a), Amount(OnLeftEdge(a, g), d.dx1), Amount(OnTopEdge(a, g), d.dy1),
                  Amount(OnRightEdge(a, g), d.dx2), Amount(OnBottomEdge(a, g), d.dy2))
  {
    var top := RowSpan(g.start.row, g.start.col, g.end.col);
    var bottom := RowSpan(g.end.row, g.start.col, g.end.col);
    var left := ColSpan(g.start.col, g.start.row, g.end.row);
    var right := ColSpan(g.end.col, g.start.row, g.end.row);
    var c1 := ShiftIf(L, cache, top, Top, d.dy1);
    var c2 := ShiftIf(L, c1, bottom, Bottom, d.dy2);
    var c3 := ShiftIf(L, c2, left, Left, d.dx1);
    var c4 := ShiftIf(L, c3, right, Right, d.dx2);
    assert EdgeShift(L, cache, g, d) == c4;
    var r0, r1, r2, r3, r4 := Lookup(L, cache, a), Lookup(L, c1, a), Lookup(L, c2, a), Lookup(L, c3, a), Lookup(L, c4, a);
    var top', bottom' := Amount(OnTopEdge(a, g), d.dy1), Amount(OnBottomEdge(a, g), d.dy2);
    var left', right' := Amount(OnLeftEdge(a, g), d.dx1), Amount(OnRightEdge(a, g), d.dx2);
    assert r1 == Moved(r0, 0, top', 0, 0) by {
      ShiftIfAt(L, cache, top, Top, d.dy1, a);
    }
    assert r2 == Moved(r1, 0, 0, 0, bottom') by {
      ShiftIfAt(L, c1, bottom, Bottom, d.dy2, a);
    }
    assert r3 == Moved(r2, left', 0, 0, 0) by {
      ShiftIfAt(L, c2, left, Left, d.dx1, a);
    }
    assert r4 == Moved(r3, 0, 0, right', 0) by {
      ShiftIfAt(L, c3, right, Right, d.dx2, a);
    }
    MovedFour(r0, top', bottom', left', right');
  }

  /** Moving a contained rectangle's edges out by at most what the container's edges move keeps it contained. */
  lemma MovedWithin(b: Rect, r: Rect, d: Deltas, left: bool, top: bool, right: bool, bottom: bool)
    requires Bounds(b, r) && d.dx1 >= 0 && d.dy1 >= 0 && d.dx2 >= 0 && d.dy2 >= 0
    ensures Bounds(Moved(b, d.dx1, d.dy1, d.dx2, d.dy2),
                   Moved(r, Amount(left, d.dx1), Amount(top, d.dy1), Amount(right, d.dx2), Amount(bottom, d.dy2)))
  {
  }

  /** After widening, every cell of the region still lies inside the widened corner rectangle. */
  lemma WidenedCellsInside(L: GridLayout, cache: map<Addr, Rect>, g: Region, d: Deltas)
    requires Unmodified(L, cache)
    requires d.dx1 >= 0 && d.dy1 >= 0 && d.dx2 >= 0 && d.dy2 >= 0
    ensures forall a :: InRegion(a, g) ==>
      Bounds(Moved(CornerRect(L, g), d.dx1, d.dy1, d.dx2, d.dy2), Lookup(L, EdgeShift(L, cache, g, d), a))
  {
    var b := CornerRect(L, g);
    forall a | InRegion(a, g)
      ensures Bounds(Moved(b, d.dx1, d.dy1, d.dx2, d.dy2), Lookup(L, EdgeShift(L, cache, g, d), a))
    {
      assert Bounds(b, Lookup(L, cache, a)) by {
        LookupUnmodified(L, cache, a);
        CellInCorner(L, g, a);
      }
      EdgeShiftAt(L, cache, g, d, a);
      MovedWithin(b, Lookup(L, cache, a), d, OnLeftEdge(a, g), OnTopEdge(a, g), OnRightEdge(a, g), OnBottomEdge(a, g));
    }
  }

  /** After widening, the start cell carries the widened rectangle's left and top edges, the end cell its right and bottom. */
  lemma WidenedCorners(L: GridLayout, cache: map<Addr, Rect>, g: Region, d: Deltas)
    requires Unmodified(L, cache) && NonEmpty(g)
    ensures var w, c := Moved(CornerRect(L, g), d.dx1, d.dy1, d.dx2, d.dy2), EdgeShift(L, cache, g, d);
      Lookup(L, c, g.start).x1 == w.x1 && Lookup(L, c, g.start).y1 == w.y1 &&
      Lookup(L, c, g.end).x2 == w.x2 && Lookup(L, c, g.end).y2 == w.y2
  {
    WidenedStart(L, cache, g, d);
    WidenedEnd(L, cache, g, d);
  }

  lemma WidenedStart(L: GridLayout, cache: map<Addr, Rect>, g: Region, d: Deltas)
    requires Unmodified(L, cache) && NonEmpty(g)
    ensures var w, c := Moved(CornerRect(L, g), d.dx1, d.dy1, d.dx2, d.dy2), EdgeShift(L, cache, g, d);
      Lookup(L, c, g.start).x1 == w.x1 && Lookup(L, c, g.start).y1 == w.y1
  {
    LookupUnmodified(L, cache, g.start);
    EdgeShiftAt(L, cache, g, d, g.start);
  }

  lemma WidenedEnd(L: GridLayout, cache: map<Addr, Rect>, g: Region, d: Deltas)
    requires Unmodified(L, cache) && NonEmpty(g)
    ensures var w, c := Moved(CornerRect(L, g), d.dx1, d.dy1, d.dx2, d.dy2), EdgeShift(L, cache, g, d);
      Lookup(L, c, g.end).x2 == w.x2 && Lookup(L, c, g.end).y2 == w.y2
  {
    LookupUnmodified(L, cache, g.end);
    EdgeShiftAt(L, cache, g, d, g.end);
  }

  /**
   * Widening an unadjusted region by non-negative deltas widens its box by
   * exactly those deltas.
   */
  lemma WidenedBox(L: GridLayout, cache: map<Addr, Rect>, g: Region, d: Deltas)
    requires Unmodified(L, cache) && NonEmpty(g)
    requires d.dx1 >= 0 && d.dy1 >= 0 && d.dx2 >= 0 && d.dy2 >= 0
    ensures PixelBox(L, EdgeShift(L, cache, g, d), g) == Some(Moved(CornerRect(L, g), d.dx1, d.dy1, d.dx2, d.dy2))
  {
    var w := Moved(CornerRect(L, g), d.dx1, d.dy1, d.dx2, d.dy2);
    var c := EdgeShift(L, cache, g, d);
    WidenedCellsInside(L, cache, g, d);
    WidenedCorners(L, cache, g, d);
    PixelBoxIs(L, c, g, w, g.start, g.start, g.end, g.end);
  }
}
