/**
 * The pixel loop of `display_as_ascii` in piltext/ascii_art.py: each pixel
 * becomes the glyph its grey level selects, preceded in colour mode by the
 * palette code of its dimmed colour whenever that code differs from the
 * last one written. The image arrives already resized; each pixel carries
 * its grey level and, when it is a colour tuple, its linearised colour.
 */
module AsciiImage {
  import opened Wrappers
  import opened PyLib
  import opened AsciiArt

  /** A sampled pixel: its grey level (0 to 255) and its linearised colour, when it has one. */
  datatype Pixel = Pixel(gray: int, srgb: Option<Rgb>)

  /** The glyphs used when no `char` is given, from darkest to brightest. */
  const DefaultGlyphs: string := " .:-=+*#%@"

  /** `list(char) if char else [...]`: an empty `char` falls back to the default glyphs. */
  function Glyphs(glyphChars: string): (g: string)
    ensures |g| > 0
    ensures glyphChars != "" ==> g == glyphChars
    ensures glyphChars == "" ==> g == DefaultGlyphs
  {
    if glyphChars != "" then glyphChars else DefaultGlyphs
  }

  /** `brightness_pixel / 255`. */
  function Brightness(gray: int): real
  {
    gray as real / 255.0
  }

  /** The position `chars[int(brightness * (len(chars) - 1))]` reads, or None where it raises. */
  function GlyphIndex(gray: int, n: nat): Option<nat>
  {
    PyIndex(n, Trunc(Brightness(gray) * (n - 1) as real))
  }

  /** The palette code `_convert_color` picks for a pixel's colour at its brightness. */
  function PixelCode(p: Pixel): string
    requires p.srgb.Some?
  {
    Palette[ConvertIndex(p.srgb.value, Brightness(p.gray))].code
  }

  /**
   * What one pixel adds to its line, and the previous colour afterwards: its
   * glyph, preceded by its colour code when colour is on, the pixel has a
   * colour and that code is not the previous colour.
   */
  function PixelText(p: Pixel, glyphs: string, monochrome: bool, previous: string): Result<(string, string), AsciiError>
  {
    match GlyphIndex(p.gray, |glyphs|)
    case None => Err(IndexError)
    case Some(k) =>
      if monochrome || p.srgb.None? then Ok(([glyphs[k]], previous))
      else
        var code := PixelCode(p);
        if code == previous then Ok(([glyphs[k]], previous))
        else Ok((code + [glyphs[k]], code))
  }

  /** The line for the first `n` pixels of a row, and the previous colour after them. */
  function RowText(row: seq<Pixel>, glyphs: string, monochrome: bool, previous: string, n: nat): Result<(string, string), AsciiError>
    requires n <= |row|
  {
    if n == 0 then Ok(("", previous))
    else
      match RowText(row, glyphs, monochrome, previous, n - 1)
      case Err(e) => Err(e)
      case Ok((line, prev)) =>
        match PixelText(row[n - 1], glyphs, monochrome, prev)
        case Err(e) => Err(e)
        case Ok((piece, next)) => Ok((line + piece, next))
  }

  /** The lines of the first `n` rows, and the previous colour after them: it carries over from row to row. */
  function RowsText(pixels: seq<seq<Pixel>>, glyphs: string, monochrome: bool, n: nat): Result<(seq<string>, string), AsciiError>
    requires n <= |pixels|
  {
    if n == 0 then Ok(([], ""))
    else
      match RowsText(pixels, glyphs, monochrome, n - 1)
      case Err(e) => Err(e)
      case Ok((lines, prev)) =>
        match RowText(pixels[n - 1], glyphs, monochrome, prev, |pixels[n - 1]|)
        case Err(e) => Err(e)
        case Ok((line, next)) => Ok((lines + [line], next))
  }

  /** What `display_as_ascii` returns for the sampled image, or the exception it raises. */
  function AsciiText(pixels: seq<seq<Pixel>>, glyphChars: string, monochrome: bool): Result<string, AsciiError>
  {
    match RowsText(pixels, Glyphs(glyphChars), monochrome, |pixels|)
    case Err(e) => Err(e)
    case Ok((lines, _)) => if monochrome then Ok(Join("\n", lines)) else Ok(Join("\n", lines) + Reset)
  }

  /**
   * `display_as_ascii` after the resize: one line per pixel row, a glyph per
   * pixel, and in colour mode a palette code wherever the colour changes,
   * the previous colour carrying over from one row to the next; colour
   * output ends with a reset.
   */
  method DisplayAsAscii(pixels: seq<seq<Pixel>>, glyphChars: string, monochrome: bool) returns (r: Result<string, AsciiError>)
    ensures r == AsciiText(pixels, glyphChars, monochrome)
  {
    var chars := Glyphs(glyphChars);
    var lines: seq<string> := [];
    var previousColor := "";
    for h := 0 to |pixels|
      invariant RowsText(pixels, chars, monochrome, h) == Ok((lines, previousColor))
    {
      var written := WriteRow(pixels[h], chars, monochrome, previousColor);
      if written.Err? {
        RowsFailFrom(pixels, chars, monochrome, h + 1, written.error);
        return Err(written.error);
      }
      lines := lines + [written.value.0];
      previousColor := written.value.1;
    }
    if monochrome {
      r := Ok(Join("\n", lines));
    } else {
      r := Ok(Join("\n", lines) + Reset);
    }
  }

  /** The inner loop of `display_as_ascii`: one row's line, starting from the previous colour of the rows before. */
  method WriteRow(row: seq<Pixel>, chars: string, monochrome: bool, previous: string) returns (r: Result<(string, string), AsciiError>)
    ensures r == RowText(row, chars, monochrome, previous, |row|)
  {
    var line := "";
    var previousColor := previous;
    for w := 0 to |row|
      invariant RowText(row, chars, monochrome, previous, w) == Ok((line, previousColor))
    {
      var piece := WritePixel(row[w], chars, monochrome, previousColor);
      if piece.Err? {
        RowFails(row, chars, monochrome, previous, w + 1, piece.error);
        return Err(piece.error);
      }
      line := line + piece.value.0;
      previousColor := piece.value.1;
    }
    return Ok((line, previousColor));
  }

  /** The body of the inner loop of `display_as_ascii`: one pixel's glyph and, when the colour changes, its code. */
  method WritePixel(p: Pixel, chars: string, monochrome: bool, previousColor: string) returns (r: Result<(string, string), AsciiError>)
    ensures r == PixelText(p, chars, monochrome, previousColor)
  {
    var brightness := Brightness(p.gray);
    var k := GlyphIndex(p.gray, |chars|);
    if k.None? {
      return Err(IndexError);
    }
    var asciiChar := chars[k.value];
    if monochrome || p.srgb.None? {
      return Ok(([asciiChar], previousColor));
    }
    var colorCode := ConvertColor(p.srgb.value, brightness);
    if colorCode == previousColor {
      return Ok(([asciiChar], previousColor));
    }
    return Ok((colorCode + [asciiChar], colorCode));
  }

  /** A pixel that raises ends its row's line with that exception. */
  lemma {:induction false} RowFails(row: seq<Pixel>, glyphs: string, monochrome: bool, previous: string, n: nat, e: AsciiError)
    requires n <= |row| && RowText(row, glyphs, monochrome, previous, n) == Err(e)
    ensures RowText(row, glyphs, monochrome, previous, |row|) == Err(e)
    decreases |row| - n
  {
    if n < |row| {
      RowFails(row, glyphs, monochrome, previous, n + 1, e);
    }
  }

  /** Once the first `n` rows raise, so do all of them. */
  lemma {:induction false} RowsFailFrom(pixels: seq<seq<Pixel>>, glyphs: string, monochrome: bool, n: nat, e: AsciiError)
    requires n <= |pixels| && RowsText(pixels, glyphs, monochrome, n) == Err(e)
    ensures RowsText(pixels, glyphs, monochrome, |pixels|) == Err(e)
    decreases |pixels| - n
  {
    if n < |pixels| {
      RowsFailFrom(pixels, glyphs, monochrome, n + 1, e);
    }
  }

  // ---------------------------------------------------------------------
  // What the loop promises
  // ---------------------------------------------------------------------

  /** For a grey level from 0 to 255 the glyph index is in bounds and never counts from the end: black is the first glyph, white the last. */
  lemma GlyphInBounds(gray: int, n: nat)
    requires 0 <= gray <= 255 && n > 0
    ensures GlyphIndex(gray, n).Some?
    ensures GlyphIndex(gray, n).value == Trunc(Brightness(gray) * (n - 1) as real) <= n - 1
    ensures gray == 0 ==> GlyphIndex(gray, n).value == 0
    ensures gray == 255 ==> GlyphIndex(gray, n).value == n - 1
  {
    var b, m := Brightness(gray), (n - 1) as real;
    ProductBelow(b, m);
    TruncMonotone(0.0, b * m);
    TruncMonotone(b * m, m);
  }

  /**
   * Each pixel writes its glyph; in colour mode a pixel with a colour first
   * writes that colour's palette code when it differs from the previous
   * colour, which it then becomes. Otherwise the previous colour is kept.
   */
  lemma PixelEscape(p: Pixel, glyphs: string, monochrome: bool, previous: string)
    requires PixelText(p, glyphs, monochrome, previous).Ok?
    ensures var (piece, next) := PixelText(p, glyphs, monochrome, previous).value;
      var glyph := glyphs[GlyphIndex(p.gray, |glyphs|).value];
      if !monochrome && p.srgb.Some? && PixelCode(p) != previous
      then piece == PixelCode(p) + [glyph] && next == PixelCode(p) && IsEscape(next)
      else piece == [glyph] && next == previous
  {
    if !monochrome && p.srgb.Some? {
      PaletteCodesAreEscapes();
    }
  }

  /** Every glyph pixel in range renders: with grey levels from 0 to 255 `display_as_ascii` raises nothing. */
  lemma {:induction false} InRangeRenders(pixels: seq<seq<Pixel>>, glyphs: string, monochrome: bool, n: nat)
    requires n <= |pixels| && |glyphs| > 0
    requires forall h, w :: 0 <= h < |pixels| && 0 <= w < |pixels[h]| ==> 0 <= pixels[h][w].gray <= 255
    ensures RowsText(pixels, glyphs, monochrome, n).Ok?
  {
    if n > 0 {
      InRangeRenders(pixels, glyphs, monochrome, n - 1);
      RowRenders(pixels[n - 1], glyphs, monochrome, RowsText(pixels, glyphs, monochrome, n - 1).value.1, |pixels[n - 1]|);
    }
  }

  lemma {:induction false} RowRenders(row: seq<Pixel>, glyphs: string, monochrome: bool, previous: string, n: nat)
    requires n <= |row| && |glyphs| > 0
    requires forall w :: 0 <= w < |row| ==> 0 <= row[w].gray <= 255
    ensures RowText(row, glyphs, monochrome, previous, n).Ok?
  {
    if n > 0 {
      RowRenders(row, glyphs, monochrome, previous, n - 1);
      GlyphInBounds(row[n - 1].gray, |glyphs|);
    }
  }

  // ---------------------------------------------------------------------
  // Colour only adds escapes
  // ---------------------------------------------------------------------

  /** An SGR escape as the palette spells them: the escape character, no 'm' until the final 'm'. */
  predicate IsEscape(code: string)
  {
    |code| >= 2 && code[0] == '\U{1B}' && code[|code| - 1] == 'm' && forall i :: 1 <= i < |code| - 1 ==> code[i] != 'm'
  }

  /** Every palette code, and the reset, is one escape. */
  lemma PaletteCodesAreEscapes()
    ensures forall k :: 0 <= k < |Palette| ==> IsEscape(Palette[k].code)
    ensures IsEscape(Reset)
  {
  }

  /** No glyph is the escape character. */
  predicate NoEscapeChar(s: string)
  {
    forall i :: 0 <= i < |s| ==> s[i] != '\U{1B}'
  }

  /** The characters a terminal shows for `s`, starting inside an escape or not: escapes run from the escape character to the next 'm'. */
  function Visible(s: string, inEscape: bool): string
    decreases |s|
  {
    if s == [] then []
    else if inEscape then Visible(s[1..], s[0] != 'm')
    else if s[0] == '\U{1B}' then Visible(s[1..], true)
    else [s[0]] + Visible(s[1..], false)
  }

  /** Whether a terminal is inside an escape after reading `s`. */
  function InEscapeAfter(s: string, inEscape: bool): bool
    decreases |s|
  {
    if s == [] then inEscape
    else if inEscape then InEscapeAfter(s[1..], s[0] != 'm')
    else InEscapeAfter(s[1..], s[0] == '\U{1B}')
  }

  /** Reading `a + b` is reading `a`, then `b` from where `a` left off. */
  lemma {:induction false} VisibleAppend(a: string, b: string, inEscape: bool)
    ensures Visible(a + b, inEscape) == Visible(a, inEscape) + Visible(b, InEscapeAfter(a, inEscape))
    ensures InEscapeAfter(a + b, inEscape) == InEscapeAfter(b, InEscapeAfter(a, inEscape))
    decreases |a|
  {
    if a != [] {
      assert (a + b)[1..] == a[1..] + b;
      var next := if inEscape then a[0] != 'm' else a[0] == '\U{1B}';
      VisibleAppend(a[1..], b, next);
    } else {
      assert a + b == b;
    }
  }

  /** An escape shows nothing and closes itself. */
  lemma EscapeInvisible(code: string)
    requires IsEscape(code)
    ensures Visible(code, false) == [] && !InEscapeAfter(code, false)
  {
    EscapeTailInvisible(code[1..]);
  }

  lemma {:induction false} EscapeTailInvisible(s: string)
    requires |s| >= 1 && s[|s| - 1] == 'm' && forall i :: 0 <= i < |s| - 1 ==> s[i] != 'm'
    ensures Visible(s, true) == [] && !InEscapeAfter(s, true)
  {
    if |s| > 1 {
      EscapeTailInvisible(s[1..]);
    }
  }

  /** Outside an escape, a character other than the escape character shows as itself. */
  lemma PlainVisible(c: char)
    requires c != '\U{1B}'
    ensures Visible([c], false) == [c] && !InEscapeAfter([c], false)
  {
  }

  /** In colour mode a pixel shows exactly its monochrome glyph. */
  lemma PixelVisible(p: Pixel, glyphs: string, previous: string, plainPrevious: string)
    requires NoEscapeChar(glyphs)
    ensures PixelText(p, glyphs, false, previous).Ok? <==> PixelText(p, glyphs, true, plainPrevious).Ok?
    ensures PixelText(p, glyphs, false, previous).Ok? ==>
      var piece := PixelText(p, glyphs, false, previous).value.0;
      Visible(piece, false) == PixelText(p, glyphs, true, plainPrevious).value.0 &&
      !InEscapeAfter(piece, false) && PixelText(p, glyphs, true, plainPrevious).value.1 == plainPrevious
  {
    if PixelText(p, glyphs, false, previous).Ok? {
      var glyph := glyphs[GlyphIndex(p.gray, |glyphs|).value];
      PlainVisible(glyph);
      if p.srgb.Some? && PixelCode(p) != previous {
        PaletteCodesAreEscapes();
        EscapeInvisible(PixelCode(p));
        VisibleAppend(PixelCode(p), [glyph], false);
      }
    }
  }

  /** In colour mode a row's line shows exactly its monochrome line. */
  lemma {:induction false} RowVisible(row: seq<Pixel>, glyphs: string, previous: string, plainPrevious: string, n: nat)
    requires NoEscapeChar(glyphs) && n <= |row|
    ensures RowText(row, glyphs, false, previous, n).Ok? <==> RowText(row, glyphs, true, plainPrevious, n).Ok?
    ensures RowText(row, glyphs, false, previous, n).Ok? ==>
      var line := RowText(row, glyphs, false, previous, n).value.0;
      Visible(line, false) == RowText(row, glyphs, true, plainPrevious, n).value.0 &&
      !InEscapeAfter(line, false) && RowText(row, glyphs, true, plainPrevious, n).value.1 == plainPrevious
  {
    if n > 0 {
      RowVisible(row, glyphs, previous, plainPrevious, n - 1);
      var colored := RowText(row, glyphs, false, previous, n - 1);
      if colored.Ok? {
        var (line, prev) := colored.value;
        PixelVisible(row[n - 1], glyphs, prev, plainPrevious);
        if PixelText(row[n - 1], glyphs, false, prev).Ok? {
          VisibleAppend(line, PixelText(row[n - 1], glyphs, false, prev).value.0, false);
        }
      }
    }
  }

  /** In colour mode every line shows exactly its monochrome line. */
  lemma {:induction false} RowsVisible(pixels: seq<seq<Pixel>>, glyphs: string, n: nat)
    requires NoEscapeChar(glyphs) && n <= |pixels|
    ensures RowsText(pixels, glyphs, false, n).Ok? <==> RowsText(pixels, glyphs, true, n).Ok?
    ensures RowsText(pixels, glyphs, false, n).Ok? ==>
      var lines, plain := RowsText(pixels, glyphs, false, n).value.0, RowsText(pixels, glyphs, true, n).value;
      plain.1 == "" && |lines| == |plain.0| == n &&
      forall i :: 0 <= i < n ==> Visible(lines[i], false) == plain.0[i] && !InEscapeAfter(lines[i], false)
  {
    if n > 0 {
      RowsVisible(pixels, glyphs, n - 1);
      var colored := RowsText(pixels, glyphs, false, n - 1);
      if colored.Ok? {
        RowVisible(pixels[n - 1], glyphs, colored.value.1, "", |pixels[n - 1]|);
      }
    }
  }

  /** Joining lines with newlines shows the joined visible lines. */
  lemma {:induction false} JoinVisible(lines: seq<string>, plain: seq<string>)
    requires |lines| == |plain|
    requires forall i :: 0 <= i < |lines| ==> Visible(lines[i], false) == plain[i] && !InEscapeAfter(lines[i], false)
    ensures Visible(Join("\n", lines), false) == Join("\n", plain) && !InEscapeAfter(Join("\n", lines), false)
    decreases |lines|
  {
    if |lines| > 1 {
      var n := |lines| - 1;
      JoinVisible(lines[..n], plain[..n]);
      var front := Join("\n", lines[..n]);
      PlainVisible('\n');
      VisibleAppend(front, "\n", false);
      VisibleAppend(front + "\n", lines[n], false);
    }
  }

  /**
   * Colour only adds escapes: when no glyph is the escape character, the
   * coloured rendering raises exactly when the monochrome one does, ends
   * with a reset, and a terminal shows it as the monochrome rendering.
   */
  lemma ColourOnlyAddsEscapes(pixels: seq<seq<Pixel>>, glyphChars: string)
    requires NoEscapeChar(Glyphs(glyphChars))
    ensures AsciiText(pixels, glyphChars, false).Ok? <==> AsciiText(pixels, glyphChars, true).Ok?
    ensures AsciiText(pixels, glyphChars, false).Ok? ==>
      var colored := AsciiText(pixels, glyphChars, false).value;
      |colored| >= |Reset| && colored[|colored| - |Reset|..] == Reset &&
      Visible(colored, false) == AsciiText(pixels, glyphChars, true).value
  {
    var glyphs := Glyphs(glyphChars);
    RowsVisible(pixels, glyphs, |pixels|);
    if RowsText(pixels, glyphs, false, |pixels|).Ok? {
      var lines := RowsText(pixels, glyphs, false, |pixels|).value.0;
      var plain := RowsText(pixels, glyphs, true, |pixels|).value.0;
      JoinVisible(lines, plain);
      PaletteCodesAreEscapes();
      EscapeInvisible(Reset);
      VisibleAppend(Join("\n", lines), Reset, false);
    }
  }

  /** Monochrome output has no escape at all when the glyphs have none. */
  lemma MonochromeHasNoEscape(pixels: seq<seq<Pixel>>, glyphChars: string)
    requires NoEscapeChar(Glyphs(glyphChars)) && AsciiText(pixels, glyphChars, true).Ok?
    ensures NoEscapeChar(AsciiText(pixels, glyphChars, true).value)
  {
    ColourOnlyAddsEscapes(pixels, glyphChars);
    VisibleHasNoEscape(AsciiText(pixels, glyphChars, false).value, false);
  }

  /** What a terminal shows never contains the escape character. */
  lemma {:induction false} VisibleHasNoEscape(s: string, inEscape: bool)
    ensures NoEscapeChar(Visible(s, inEscape))
    decreases |s|
  {
    if s != [] {
      var next := if inEscape then s[0] != 'm' else s[0] == '\U{1B}';
      VisibleHasNoEscape(s[1..], next);
    }
  }

  // ---------------------------------------------------------------------
  // The previous colour carries over between rows
  // ---------------------------------------------------------------------

  /** Every pixel of the row has a colour, and that colour maps to code `c`. */
  predicate RowInCode(row: seq<Pixel>, c: string)
  {
    forall w :: 0 <= w < |row| ==> row[w].srgb.Some? && PixelCode(row[w]) == c
  }

  /** In a row whose pixels all map to code `c`, the code is written once, before the first glyph, unless it is already the previous colour. */
  lemma {:induction false} RowUniform(row: seq<Pixel>, glyphs: string, c: string, previous: string, plainPrevious: string, n: nat)
    requires n <= |row|
    requires RowInCode(row, c)
    requires RowText(row, glyphs, false, previous, n).Ok?
    ensures RowText(row, glyphs, true, plainPrevious, n).Ok?
    ensures RowText(row, glyphs, false, previous, n).value.0
         == (if n > 0 && previous != c then c else "") + RowText(row, glyphs, true, plainPrevious, n).value.0
    ensures RowText(row, glyphs, false, previous, n).value.1 == (if n > 0 then c else previous)
  {
    if n > 0 {
      RowUniform(row, glyphs, c, previous, plainPrevious, n - 1);
      var before := RowText(row, glyphs, false, previous, n - 1).value;
      var plainBefore := RowText(row, glyphs, true, plainPrevious, n - 1).value;
      PixelUniform(row[n - 1], glyphs, c, before.1, plainBefore.1);
      var piece := PixelText(row[n - 1], glyphs, false, before.1).value;
      var plainPiece := PixelText(row[n - 1], glyphs, true, plainBefore.1).value.0;
      assert RowText(row, glyphs, false, previous, n).value == (before.0 + piece.0, piece.1);
      assert RowText(row, glyphs, true, plainPrevious, n).value.0 == plainBefore.0 + plainPiece;
      if n - 1 == 0 {
        assert before.0 == "" && plainBefore.0 == "";
        assert before.0 + piece.0 == piece.0 && plainBefore.0 + plainPiece == plainPiece;
      } else {
        AppendAssoc(if previous != c then c else "", plainBefore.0, plainPiece);
      }
    }
  }

  /** One pixel of code `c`: the code goes in front of its glyph unless it is already the previous colour. */
  lemma PixelUniform(p: Pixel, glyphs: string, c: string, previous: string, plainPrevious: string)
    requires p.srgb.Some? && PixelCode(p) == c
    requires PixelText(p, glyphs, false, previous).Ok?
    ensures PixelText(p, glyphs, true, plainPrevious).Ok?
    ensures PixelText(p, glyphs, false, previous).value.0
         == (if previous != c then c else "") + PixelText(p, glyphs, true, plainPrevious).value.0
    ensures PixelText(p, glyphs, false, previous).value.1 == c
  {
    var glyph := glyphs[GlyphIndex(p.gray, |glyphs|).value];
    assert "" + [glyph] == [glyph];
  }

  /**
   * In an image whose pixels all map to code `c`, only the first line starts
   * with the code: the previous colour is not reset between rows.
   */
  lemma {:induction false} RowsUniform(pixels: seq<seq<Pixel>>, glyphs: string, c: string, n: nat)
    requires n <= |pixels| && c != ""
    requires forall h :: 0 <= h < |pixels| ==> |pixels[h]| > 0
    requires forall h :: 0 <= h < |pixels| ==> RowInCode(pixels[h], c)
    requires RowsText(pixels, glyphs, false, n).Ok?
    ensures RowsText(pixels, glyphs, true, n).Ok?
    ensures var colored, plain := RowsText(pixels, glyphs, false, n).value, RowsText(pixels, glyphs, true, n).value.0;
      |colored.0| == |plain| == n &&
      (n > 0 ==> colored.0[0] == c + plain[0] && colored.1 == c) &&
      forall i :: 1 <= i < n ==> colored.0[i] == plain[i]
  {
    if n > 0 {
      RowsUniform(pixels, glyphs, c, n - 1);
      var before := RowsText(pixels, glyphs, false, n - 1).value;
      var plainBefore := RowsText(pixels, glyphs, true, n - 1).value;
      var row := pixels[n - 1];
      RowUniform(row, glyphs, c, before.1, plainBefore.1, |row|);
      var line := RowText(row, glyphs, false, before.1, |row|).value;
      var plainLine := RowText(row, glyphs, true, plainBefore.1, |row|).value.0;
      assert RowsText(pixels, glyphs, false, n).value == (before.0 + [line.0], line.1);
      assert RowsText(pixels, glyphs, true, n).value.0 == plainBefore.0 + [plainLine];
      assert n - 1 > 0 ==> line.0 == plainLine;
    }
  }

  /** Joining lines whose first has a prefix puts the prefix in front of the joined text. */
  lemma {:induction false} JoinPrefix(c: string, lines: seq<string>, plain: seq<string>)
    requires |lines| == |plain| > 0 && lines[0] == c + plain[0]
    requires forall i :: 1 <= i < |lines| ==> lines[i] == plain[i]
    ensures Join("\n", lines) == c + Join("\n", plain)
    decreases |lines|
  {
    if |lines| > 1 {
      var n := |lines| - 1;
      JoinPrefix(c, lines[..n], plain[..n]);
      assert c + Join("\n", plain[..n]) + "\n" + plain[n] == c + (Join("\n", plain[..n]) + "\n" + plain[n]);
    }
  }

  /**
   * A single-colour image written in colour is its monochrome rendering
   * with one colour code in front and the reset behind.
   */
  lemma UniformImageOneEscape(pixels: seq<seq<Pixel>>, glyphChars: string, c: string)
    requires |pixels| > 0
    requires forall h :: 0 <= h < |pixels| ==> |pixels[h]| > 0
    requires forall h :: 0 <= h < |pixels| ==> RowInCode(pixels[h], c)
    requires AsciiText(pixels, glyphChars, false).Ok?
    ensures AsciiText(pixels, glyphChars, true).Ok?
    ensures AsciiText(pixels, glyphChars, false).value == c + AsciiText(pixels, glyphChars, true).value + Reset
  {
    var glyphs := Glyphs(glyphChars);
    PaletteCodesAreEscapes();
    assert IsEscape(PixelCode(pixels[0][0]));
    RowsUniform(pixels, glyphs, c, |pixels|);
    var lines := RowsText(pixels, glyphs, false, |pixels|).value.0;
    var plain := RowsText(pixels, glyphs, true, |pixels|).value.0;
    JoinPrefix(c, lines, plain);
  }
}
