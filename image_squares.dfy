/**
 * The layout arithmetic of piltext/image_squares.py: how many rows and
 * columns of squares show a percentage of `max_squares`, how large each
 * square is, where it goes, and whether it is drawn full, partly filled
 * or empty. The drawing surface is replaced by the list of rectangles the
 * drawing loop asks for, in order.
 */
module ImageSquares {
  import opened Wrappers
  import opened PyLib

  /** The exceptions the layout arithmetic can raise. */
  datatype SquaresError = ZeroDivisionError | ValueError

  /** The settings `ImageSquares.__init__` stores, with the derived grid shape and square size. */
  datatype Squares = Squares(
    percentage: real, maxSquares: int, size: int, gap: int,
    rows: int, columns: int, squareSize: int,
    borderWidth: int, showPartial: bool,
    fgColor: string, emptyColor: string, borderColor: string)

  /** `max(0.0, min(1.0, percentage))`. */
  function Clamp(percentage: real): (p: real)
    ensures 0.0 <= p <= 1.0
    ensures 0.0 <= percentage <= 1.0 ==> p == percentage
    ensures percentage < 0.0 ==> p == 0.0
    ensures percentage > 1.0 ==> p == 1.0
  {
    if percentage < 0.0 then 0.0 else if percentage > 1.0 then 1.0 else percentage
  }

  /** `math.ceil(a / b)`: the least integer not below the quotient, for a divisor of either sign. */
  function CeilQuot(a: int, b: int): int
    requires b != 0
  {
    -FloorDiv(-a, b)
  }

  /** `math.ceil(math.sqrt(m))` for `m >= 0`, counted up from `c`. */
  function CeilSqrtFrom(m: nat, c: nat): nat
    requires (c - 1) * (c - 1) < m || c == 0
    decreases m - c
  {
    if c * c >= m then c
    else CeilSqrtFrom(m, c + 1)
  }

  /** `math.ceil(math.sqrt(m))`. */
  function CeilSqrt(m: nat): nat
  {
    CeilSqrtFrom(m, 0)
  }

  /**
   * The rows and columns `__init__` settles on: both as given, the missing
   * one by ceiling division, or near-square columns first when neither is
   * given; a zero divisor or the square root of a negative count raises.
   */
  function GridShape(maxSquares: int, rows: Option<int>, columns: Option<int>): Result<(int, int), SquaresError>
  {
    if rows.Some? && columns.Some? then Ok((rows.value, columns.value))
    else if rows.Some? then
      if rows.value == 0 then Err(ZeroDivisionError) else Ok((rows.value, CeilQuot(maxSquares, rows.value)))
    else if columns.Some? then
      if columns.value == 0 then Err(ZeroDivisionError) else Ok((CeilQuot(maxSquares, columns.value), columns.value))
    else if maxSquares < 0 then Err(ValueError)
    else
      var c := CeilSqrt(maxSquares);
      if c == 0 then Err(ZeroDivisionError) else Ok((CeilQuot(maxSquares, c), c))
  }

  /** `ImageSquares.__init__`: the clamped percentage, the grid shape and `square_size`, or the exception raised. */
  function NewSquares(percentage: real, maxSquares: int, size: int, gap: int, rows: Option<int>, columns: Option<int>,
                      borderWidth: int, showPartial: bool, fgColor: string, emptyColor: string, borderColor: string)
    : Result<Squares, SquaresError>
  {
    match GridShape(maxSquares, rows, columns)
    case Err(e) => Err(e)
    case Ok((r, c)) =>
      if c == 0 then Err(ZeroDivisionError)
      else
        Ok(Squares(Clamp(percentage), maxSquares, size, gap, r, c, FloorDiv(size - (c + 1) * gap, c),
                   borderWidth, showPartial, fgColor, emptyColor, borderColor))
  }

  // ---------------------------------------------------------------------
  // Properties of the layout
  // ---------------------------------------------------------------------

  /** The square root search ends at the least count whose square reaches `m`. */
  lemma {:induction false} CeilSqrtFromLeast(m: nat, c: nat)
    requires (c - 1) * (c - 1) < m || c == 0
    ensures var s := CeilSqrtFrom(m, c);
      s * s >= m && (s == 0 || (s - 1) * (s - 1) < m)
    decreases m - c
  {
    if c * c < m {
      CeilSqrtFromLeast(m, c + 1);
    }
  }

  /** `CeilSqrt(m)` is the ceiling of the square root: the least count whose square is at least `m`. */
  lemma CeilSqrtIsLeast(m: nat)
    ensures CeilSqrt(m) * CeilSqrt(m) >= m
    ensures CeilSqrt(m) == 0 || (CeilSqrt(m) - 1) * (CeilSqrt(m) - 1) < m
    ensures CeilSqrt(m) == 0 <==> m == 0
  {
    CeilSqrtFromLeast(m, 0);
  }

  /** For a positive divisor, `CeilQuot` is the least multiple count that reaches `a`. */
  lemma CeilQuotBounds(a: int, b: int)
    requires b > 0
    ensures CeilQuot(a, b) * b >= a > CeilQuot(a, b) * b - b
  {
    var q := FloorDiv(-a, b);
    assert q * b <= -a < q * b + b;
    assert -q * b == (-q) * b;
  }

  /**
   * When a positive count is given for one side, or neither is given for a
   * non-negative number of squares, the grid has room for every square and
   * wastes less than one row or column.
   */
  lemma GridHoldsAllSquares(maxSquares: int, rows: Option<int>, columns: Option<int>)
    requires !(rows.Some? && columns.Some?)
    requires rows.Some? ==> rows.value > 0
    requires columns.Some? ==> columns.value > 0
    requires rows.None? && columns.None? ==> maxSquares > 0
    ensures GridShape(maxSquares, rows, columns).Ok?
    ensures var (r, c) := GridShape(maxSquares, rows, columns).value;
      r * c >= maxSquares &&
      (rows.Some? ==> r * c - r < maxSquares) &&
      (rows.None? ==> r * c - c < maxSquares)
  {
    if rows.Some? {
      CeilQuotBounds(maxSquares, rows.value);
      var c := CeilQuot(maxSquares, rows.value);
      assert c * rows.value == rows.value * c;
    } else if columns.Some? {
      CeilQuotBounds(maxSquares, columns.value);
    } else {
      CeilSqrtIsLeast(maxSquares);
      CeilQuotBounds(maxSquares, CeilSqrt(maxSquares));
    }
  }

  /** Without given sides the grid is as square as possible: no more rows than columns, and one column fewer would not be enough. */
  lemma NearSquareGrid(maxSquares: nat)
    requires maxSquares > 0
    ensures GridShape(maxSquares, None, None).Ok?
    ensures var (r, c) := GridShape(maxSquares, None, None).value;
      r <= c && (c - 1) * (c - 1) < maxSquares <= c * c
  {
    var c := CeilSqrt(maxSquares);
    CeilSqrtIsLeast(maxSquares);
    CeilQuotBounds(maxSquares, c);
    var r := CeilQuot(maxSquares, c);
    assert (r - 1) * c < c * c by {
      assert (r - 1) * c == r * c - c;
    }
    MulCancel(r - 1, c, c);
  }

  /** A positive factor can be cancelled from a strict inequality. */
  lemma MulCancel(x: int, y: int, c: int)
    requires c > 0 && x * c < y * c
    ensures x < y
  {
  }

  /** `math.ceil(a / b)` is zero exactly when `a / b` lies in (-1, 0]. */
  lemma CeilQuotZero(a: int, b: int)
    requires b != 0
    ensures CeilQuot(a, b) == 0 <==> (b > 0 && -b < a <= 0) || (b < 0 && 0 <= a < -b)
  {
    if b > 0 && -b < a <= 0 {
      DivUnique(-a, b, 0, -a);
    } else if b < 0 && 0 <= a < -b {
      DivUnique(a, -b, 0, a);
    }
  }

  /**
   * `__init__` raises `ZeroDivisionError` exactly when it ends up with no
   * columns or divides by a given zero side (for a given row count, when the
   * squares fit in less than one column), and `ValueError` exactly when no
   * side is given and the count is negative.
   */
  lemma NewSquaresErrors(percentage: real, maxSquares: int, size: int, gap: int, rows: Option<int>, columns: Option<int>,
                         borderWidth: int, showPartial: bool, fgColor: string, emptyColor: string, borderColor: string)
    ensures var s := NewSquares(percentage, maxSquares, size, gap, rows, columns, borderWidth, showPartial, fgColor, emptyColor, borderColor);
      (s.Err? <==>
        (columns.Some? && columns.value == 0) ||
        (rows.Some? && columns.None? &&
          (rows.value == 0 || (rows.value > 0 && -rows.value < maxSquares <= 0) || (rows.value < 0 && 0 <= maxSquares < -rows.value))) ||
        (rows.None? && columns.None? && maxSquares <= 0)) &&
      (s.Err? && s.error == ValueError <==> rows.None? && columns.None? && maxSquares < 0)
  {
    if rows.None? && columns.None? && maxSquares >= 0 {
      CeilSqrtIsLeast(maxSquares);
    } else if rows.Some? && columns.None? && rows.value != 0 {
      CeilQuotZero(maxSquares, rows.value);
    }
  }

  /** The space between the left edges of neighbouring squares is `(size - gap) // columns`. */
  lemma SquarePitch(s: Squares, c: int)
    requires c == s.columns > 0 && s.squareSize == FloorDiv(s.size - (c + 1) * s.gap, c)
    ensures s.squareSize + s.gap == FloorDiv(s.size - s.gap, c)
  {
    var q := s.squareSize;
    assert q * c <= s.size - (c + 1) * s.gap < q * c + c;
    assert (q + s.gap) * c == q * c + s.gap * c;
    DivUnique(s.size - s.gap, c, q + s.gap, s.size - s.gap - (q + s.gap) * c);
  }

  // ---------------------------------------------------------------------
  // `_draw_squares`
  // ---------------------------------------------------------------------

  /** A `drawer.draw.rectangle` call: corners, fill, outline colour and outline width (None for PIL's default). */
  datatype Rect = Rect(x0: int, y0: int, x1: int, y1: int, fill: string, outline: Option<string>, width: Option<int>)

  /** How a square is drawn. */
  datatype Kind = Full | Partial | Empty

  /** `self.percentage * self.max_squares`. */
  function Filled(s: Squares): real
  {
    s.percentage * s.maxSquares as real
  }

  /** `full_squares = math.floor(filled_squares)`. */
  function FullSquares(s: Squares): int
  {
    Filled(s).Floor
  }

  /** `partial_square_value = filled_squares - full_squares`. */
  function PartialValue(s: Squares): real
  {
    Filled(s) - FullSquares(s) as real
  }

  /** The fill percentage of the square at `index`: 1 before `full_squares`, the fraction at it when shown, 0 otherwise. */
  function FillPercentage(s: Squares, index: int): real
  {
    if index < FullSquares(s) then 1.0
    else if index == FullSquares(s) && PartialValue(s) > 0.0 && s.showPartial then PartialValue(s)
    else 0.0
  }

  /** The fill colour chosen alongside the fill percentage. */
  function FillColor(s: Squares, index: int): string
  {
    if index < FullSquares(s) then s.fgColor
    else if index == FullSquares(s) && PartialValue(s) > 0.0 && s.showPartial then s.fgColor
    else s.emptyColor
  }

  /** The outline of every bordered square: the border colour when the border width is positive. */
  function Outline(s: Squares): Option<string>
  {
    if s.borderWidth > 0 then Some(s.borderColor) else None
  }

  /** The rectangles drawn for the square in row `i`, column `j`. */
  function SquareDraws(s: Squares, i: int, j: int): seq<Rect>
  {
    var index := i * s.columns + j;
    var x := s.gap + j * (s.squareSize + s.gap);
    var y := s.gap + i * (s.squareSize + s.gap);
    var fill := FillPercentage(s, index);
    if fill == 1.0 then
      [Rect(x, y, x + s.squareSize, y + s.squareSize, FillColor(s, index), Outline(s), Some(s.borderWidth))]
    else if fill > 0.0 then
      var filledWidth := Trunc(s.squareSize as real * fill);
      [Rect(x, y, x + s.squareSize, y + s.squareSize, s.emptyColor, Outline(s), Some(s.borderWidth)),
       Rect(x + s.borderWidth, y, x + filledWidth, y + s.squareSize - s.borderWidth, FillColor(s, index), None, None)]
    else
      [Rect(x, y, x + s.squareSize, y + s.squareSize, s.emptyColor, Outline(s), Some(s.borderWidth))]
  }

  /** The rectangles of the squares with indices below `n`, in index order; square `k` is in row `k // columns`. */
  function DrawsThrough(s: Squares, n: nat): seq<Rect>
    requires n == 0 || s.columns > 0
  {
    if n == 0 then []
    else DrawsThrough(s, n - 1) + SquareDraws(s, (n - 1) / s.columns, (n - 1) % s.columns)
  }

  /** How many squares the loop visits: `min(max_squares, rows * columns)`, and none for an empty grid. */
  function Visits(s: Squares): nat
  {
    Max(0, Min(s.maxSquares, Max(s.rows, 0) * s.columns))
  }

  /**
   * `_draw_squares`: visit the squares row by row, stopping a row at the
   * first index that reaches `max_squares`, and draw each square full,
   * partly filled from the left, or empty.
   */
  method DrawSquares(s: Squares) returns (draws: seq<Rect>)
    ensures Visits(s) == 0 || s.columns > 0
    ensures draws == DrawsThrough(s, Visits(s))
  {
    draws := [];
    var i := 0;
    while i < s.rows
      invariant 0 <= i <= Max(s.rows, 0)
      invariant Max(0, Min(s.maxSquares, i * s.columns)) == 0 || s.columns > 0
      invariant draws == DrawsThrough(s, Max(0, Min(s.maxSquares, i * s.columns)))
    {
      var j := 0;
      while j < s.columns
        invariant 0 <= j <= Max(s.columns, 0)
        invariant j > 0 ==> i * s.columns + j <= s.maxSquares
        invariant draws == DrawsThrough(s, Max(0, Min(s.maxSquares, i * s.columns + j)))
      {
        var index := i * s.columns + j;
        if index >= s.maxSquares {
          break;
        }
        IndexSplit(i, j, s.columns);
        draws := draws + SquareDraws(s, i, j);
        j := j + 1;
      }
      assert (i + 1) * s.columns == i * s.columns + s.columns;
      i := i + 1;
    }
  }

  /** Row `i`, column `j` of a grid with `c` columns is square `i * c + j`. */
  lemma IndexSplit(i: nat, j: nat, c: int)
    requires j < c
    ensures (i * c + j) / c == i && (i * c + j) % c == j
  {
    DivUnique(i * c + j, c, i, j);
  }

  // ---------------------------------------------------------------------
  // What the drawing promises
  // ---------------------------------------------------------------------

  /** A layout as `__init__` builds it: some columns, `square_size` from the formula, the percentage clamped. */
  predicate Laid(s: Squares)
  {
    s.columns != 0 && s.squareSize == FloorDiv(s.size - (s.columns + 1) * s.gap, s.columns) && 0.0 <= s.percentage <= 1.0
  }

  /** Every layout `__init__` returns is laid out by the formula, with the percentage clamped. */
  lemma NewSquaresLaid(percentage: real, maxSquares: int, size: int, gap: int, rows: Option<int>, columns: Option<int>,
                       borderWidth: int, showPartial: bool, fgColor: string, emptyColor: string, borderColor: string)
    requires NewSquares(percentage, maxSquares, size, gap, rows, columns, borderWidth, showPartial, fgColor, emptyColor, borderColor).Ok?
    ensures var s := NewSquares(percentage, maxSquares, size, gap, rows, columns, borderWidth, showPartial, fgColor, emptyColor, borderColor).value;
      Laid(s) && s.percentage == Clamp(percentage) && s.maxSquares == maxSquares
  {
    var (r, c) := GridShape(maxSquares, rows, columns).value;
    if rows.None? && columns.None? {
      CeilSqrtIsLeast(maxSquares);
    }
  }

  /** The canvas width `render` computes: the squares and a gap on each side of each. */
  function ActualWidth(s: Squares): int
  {
    s.squareSize * s.columns + (s.columns + 1) * s.gap
  }

  /** The canvas height `render` computes. */
  function ActualHeight(s: Squares): int
  {
    s.squareSize * s.rows + (s.rows + 1) * s.gap
  }

  /** The kind of the square at `index`, by the tests on `index` the loop makes. */
  function KindOf(s: Squares, index: int): Kind
  {
    if index < FullSquares(s) then Full
    else if index == FullSquares(s) && PartialValue(s) > 0.0 && s.showPartial then Partial
    else Empty
  }

  /**
   * With the percentage in [0, 1] and a non-negative count, `full_squares`
   * is between 0 and `max_squares` and the fraction left over is in [0, 1).
   */
  lemma FullSquaresBounds(s: Squares)
    requires 0.0 <= s.percentage <= 1.0 && s.maxSquares >= 0
    ensures 0 <= FullSquares(s) <= s.maxSquares
    ensures 0.0 <= PartialValue(s) < 1.0
    ensures FullSquares(s) == s.maxSquares ==> PartialValue(s) == 0.0
  {
    var m := s.maxSquares as real;
    ProductBelow(s.percentage, m);
    assert s.percentage * m == Filled(s);
    if FullSquares(s) == s.maxSquares {
      assert Filled(s) == m;
    }
  }

  /**
   * The drawing follows the kind: a full square is one rectangle in the
   * foreground colour; a partial one is an empty square with a foreground
   * strip from the left whose width is below the square size; an empty one
   * is one rectangle in the empty colour. Each starts with the square's box.
   */
  lemma SquareDrawsByKind(s: Squares, i: int, j: int)
    requires 0.0 <= s.percentage <= 1.0 && s.maxSquares >= 0
    ensures var draws, index := SquareDraws(s, i, j), i * s.columns + j;
      var x, y := s.gap + j * (s.squareSize + s.gap), s.gap + i * (s.squareSize + s.gap);
      |draws| == (if KindOf(s, index) == Partial then 2 else 1) &&
      draws[0].x0 == x && draws[0].y0 == y && draws[0].x1 == x + s.squareSize && draws[0].y1 == y + s.squareSize &&
      draws[0].outline == Outline(s) &&
      draws[0].fill == (if KindOf(s, index) == Full then s.fgColor else s.emptyColor) &&
      (KindOf(s, index) == Partial ==>
        draws[1].fill == s.fgColor && draws[1].x0 == x + s.borderWidth &&
        (s.squareSize >= 0 ==> x <= draws[1].x1 <= x + s.squareSize) &&
        (s.squareSize > 0 ==> draws[1].x1 < x + s.squareSize))
  {
    FullSquaresBounds(s);
    if KindOf(s, i * s.columns + j) == Partial {
      StripWidth(s.squareSize, PartialValue(s));
    }
  }

  /** `int(square_size * fill_percentage)` for a fraction in [0, 1): between 0 and the square size, and below it when positive. */
  lemma StripWidth(size: int, f: real)
    requires 0.0 <= f < 1.0
    ensures size >= 0 ==> 0 <= Trunc(size as real * f) <= size
    ensures size > 0 ==> Trunc(size as real * f) < size
  {
    if size >= 0 {
      var w := size as real;
      var p := w * f;
      ProductBelow(f, w);
      assert f * w == p;
      var r := Trunc(p);
      assert r as real <= p < r as real + 1.0;
      if size > 0 {
        var rest := 1.0 - f;
        assert rest * w > 0.0;
        assert w - p == rest * w;
      }
    }
  }

  /**
   * With a non-negative pitch (`size >= gap`), every visited square lies on
   * the canvas, at least a gap away from each edge.
   */
  lemma SquareInCanvas(s: Squares, k: nat)
    requires Laid(s) && s.columns > 0 && s.size >= s.gap && k < Visits(s)
    ensures var i, j := k / s.columns, k % s.columns;
      var x, y := s.gap + j * (s.squareSize + s.gap), s.gap + i * (s.squareSize + s.gap);
      s.gap <= x && x + s.squareSize <= ActualWidth(s) - s.gap &&
      s.gap <= y && y + s.squareSize <= ActualHeight(s) - s.gap
  {
    var c := s.columns;
    SquarePitch(s, c);
    VisitedRow(s, k);
    SpanFits(s.squareSize, s.gap, k % c, c);
    SpanFits(s.squareSize, s.gap, k / c, s.rows);
    assert ActualWidth(s) == s.squareSize * c + (c + 1) * s.gap;
  }

  /** A visited square lies in one of the `rows` rows. */
  lemma VisitedRow(s: Squares, k: nat)
    requires s.columns > 0 && k < Visits(s)
    ensures 0 <= k / s.columns < s.rows
  {
    var c := s.columns;
    var i := k / c;
    assert k < s.rows * c;
    if i >= s.rows {
      MulMonotone(s.rows, i, c);
    }
  }

  /** The `j`-th of `n` boxes of size `size`, each after a gap, ends a gap before the end of the strip. */
  lemma SpanFits(size: int, gap: int, j: int, n: int)
    requires 0 <= j < n && size + gap >= 0
    ensures gap <= gap + j * (size + gap)
    ensures gap + j * (size + gap) + size <= size * n + (n + 1) * gap - gap
  {
    var pitch := size + gap;
    MulMonotone(0, j, pitch);
    MulMonotone(j + 1, n, pitch);
    assert gap + j * pitch + size == (j + 1) * pitch;
    assert size * n + (n + 1) * gap - gap == n * pitch;
  }

  /**
   * The loop draws every visited square, in index order, with one rectangle
   * each and one more for the partial square: the count is the number of
   * visited squares plus one when the partial square is among them.
   */
  lemma {:induction false} DrawCount(s: Squares, n: nat)
    requires (n == 0 || s.columns > 0) && 0.0 <= s.percentage <= 1.0 && s.maxSquares >= 0
    ensures |DrawsThrough(s, n)| == n + (if s.showPartial && PartialValue(s) > 0.0 && 0 <= FullSquares(s) < n then 1 else 0)
  {
    if n > 0 {
      DrawCount(s, n - 1);
      var k := n - 1;
      IndexSplit2(k, s.columns);
      SquareDrawsByKind(s, k / s.columns, k % s.columns);
      FullSquaresBounds(s);
    }
  }

  /** A square index is its row times the column count plus its column. */
  lemma IndexSplit2(k: nat, c: int)
    requires c > 0
    ensures k / c * c + k % c == k
  {
  }
}
