/**
 * The text renderings of piltext/ascii_art.py: ANSI colour matching against a
 * 16-entry palette, the readable and grid-shaped text dumps, and the
 * glyph-and-escape loop that turns an image into coloured ASCII art. Images
 * arrive already resized and sampled; floats are exact reals.
 */
module AsciiArt {
  import opened Wrappers
  import opened PyLib

  /** The escape that switches colours off. */
  const Reset: string := "\U{1B}[0m"

  /** A colour as callers pass it: a string (a hex colour when it starts with '#'), an integer grey level, or None. */
  datatype Color = Str(s: string) | Int(n: int) | NoColor

  /** The exceptions these renderings can raise. */
  datatype AsciiError = ValueError | IndexError | ZeroDivisionError

  /** A colour with channels as floats, nominally in [0, 1]. */
  datatype Rgb = Rgb(r: real, g: real, b: real)

  /** A `PALETTE` row: its colour, its ANSI foreground code and its hex spelling. */
  datatype PaletteEntry = PaletteEntry(rgb: Rgb, code: string, hex: string)

  /** `PALETTE`: the sixteen ANSI foreground colours. */
  const Palette: seq<PaletteEntry> := [
    PaletteEntry(Rgb(0.0, 0.0, 0.0), "\U{1B}[30m", "#000000"),
    PaletteEntry(Rgb(0.5, 0.0, 0.0), "\U{1B}[31m", "#800000"),
    PaletteEntry(Rgb(0.0, 0.5, 0.0), "\U{1B}[32m", "#008000"),
    PaletteEntry(Rgb(0.5, 0.5, 0.0), "\U{1B}[33m", "#808000"),
    PaletteEntry(Rgb(0.0, 0.0, 0.5), "\U{1B}[34m", "#000080"),
    PaletteEntry(Rgb(0.5, 0.0, 0.5), "\U{1B}[35m", "#800080"),
    PaletteEntry(Rgb(0.0, 0.5, 0.5), "\U{1B}[36m", "#008080"),
    PaletteEntry(Rgb(0.75, 0.75, 0.75), "\U{1B}[37m", "#c0c0c0"),
    PaletteEntry(Rgb(0.5, 0.5, 0.5), "\U{1B}[90m", "#808080"),
    PaletteEntry(Rgb(1.0, 0.0, 0.0), "\U{1B}[91m", "#ff0000"),
    PaletteEntry(Rgb(0.0, 1.0, 0.0), "\U{1B}[92m", "#00ff00"),
    PaletteEntry(Rgb(1.0, 1.0, 0.0), "\U{1B}[93m", "#ffff00"),
    PaletteEntry(Rgb(0.0, 0.0, 1.0), "\U{1B}[94m", "#0000ff"),
    PaletteEntry(Rgb(1.0, 0.0, 1.0), "\U{1B}[95m", "#ff00ff"),
    PaletteEntry(Rgb(0.0, 1.0, 1.0), "\U{1B}[96m", "#00ffff"),
    PaletteEntry(Rgb(1.0, 1.0, 1.0), "\U{1B}[97m", "#ffffff")
  ]

  /** Every palette code starts with the escape character. */
  lemma PaletteCodesEscape()
    ensures |Palette| == 16
    ensures forall k :: 0 <= k < |Palette| ==> |Palette[k].code| == 5 && Palette[k].code[0] == '\U{1B}'
  {
  }

  // ---------------------------------------------------------------------
  // Distances and the running minimum
  // ---------------------------------------------------------------------

  /** `_l2_min`: the squared Euclidean distance between two colours. */
  function L2Min(v1: Rgb, v2: Rgb): real
  {
    (v1.r - v2.r) * (v1.r - v2.r) + (v1.g - v2.g) * (v1.g - v2.g) + (v1.b - v2.b) * (v1.b - v2.b)
  }

  /** Python's `d < bound` where a missing bound is `float("inf")`. */
  predicate Below(d: real, bound: Option<real>)
  {
    bound.None? || d < bound.value
  }

  /**
   * The `(index, min_distance)` pair of the palette loops after seeing the
   * distances `ds` in order: a distance replaces the pair only when it is
   * strictly below the minimum so far.
   */
  function RunningMin(ds: seq<real>, index: nat, bound: Option<real>): (s: (nat, Option<real>))
    ensures s.0 == index || s.0 < |ds|
    decreases |ds|
  {
    if ds == [] then (index, bound)
    else
      var p := RunningMin(ds[..|ds| - 1], index, bound);
      if Below(ds[|ds| - 1], p.1) then (|ds| - 1, Some(ds[|ds| - 1])) else p
  }

  /** `k` holds the smallest distance, and every earlier one is strictly larger. */
  predicate EarliestMin(ds: seq<real>, k: nat)
  {
    k < |ds| && (forall j :: 0 <= j < |ds| ==> ds[k] <= ds[j]) && (forall j :: 0 <= j < k ==> ds[k] < ds[j])
  }

  /** At most one position is the earliest minimum. */
  lemma EarliestMinUnique(ds: seq<real>, k: nat, m: nat)
    requires EarliestMin(ds, k) && EarliestMin(ds, m)
    ensures k == m
  {
    assert ds[k] <= ds[m] && ds[m] <= ds[k];
  }

  /**
   * The running minimum picks the earliest smallest distance when some
   * distance beats the initial bound, and keeps the initial index otherwise.
   */
  lemma {:induction false} RunningMinSpec(ds: seq<real>, index: nat, bound: Option<real>)
    ensures var s := RunningMin(ds, index, bound);
      if exists j :: 0 <= j < |ds| && Below(ds[j], bound)
      then EarliestMin(ds, s.0) && Below(ds[s.0], bound) && s.1 == Some(ds[s.0])
      else s == (index, bound)
    decreases |ds|
  {
    if ds != [] {
      var n := |ds| - 1;
      var init, d := ds[..n], ds[n];
      assert forall j :: 0 <= j < n ==> init[j] == ds[j];
      RunningMinSpec(init, index, bound);
      var p := RunningMin(init, index, bound);
      if exists j :: 0 <= j < n && Below(init[j], bound) {
        var k := p.0;
        if Below(d, p.1) {
          assert Below(ds[n], bound);
        } else {
          assert EarliestMin(ds, k);
        }
      } else {
        if Below(d, bound) {
          assert Below(ds[n], bound);
          assert EarliestMin(ds, n);
        } else {
          assert forall j :: 0 <= j < |ds| ==> !Below(ds[j], bound) by {
            forall j | 0 <= j < |ds| ensures !Below(ds[j], bound) {
              if j < n {
                assert ds[j] == init[j];
              }
            }
          }
        }
      }
    }
  }

  // ---------------------------------------------------------------------
  // `_hex_to_ansi`
  // ---------------------------------------------------------------------

  /** One more distance seen by the running minimum. */
  lemma RunningMinSnoc(ds: seq<real>, i: nat, index: nat, bound: Option<real>)
    requires i < |ds|
    ensures RunningMin(ds[..i + 1], index, bound) ==
      var p := RunningMin(ds[..i], index, bound);
      if Below(ds[i], p.1) then (i, Some(ds[i])) else p
  {
    assert ds[..i + 1][..i] == ds[..i];
  }

  /** `s.lstrip("#")`: the leading run of '#' removed, and nothing else. */
  function StripHashes(s: string): (r: string)
    ensures r == [] || r[0] != '#'
    ensures |r| <= |s| && r == s[|s| - |r|..]
    ensures forall i :: 0 <= i < |s| - |r| ==> s[i] == '#'
  {
    if s != [] && s[0] == '#' then StripHashes(s[1..]) else s
  }

  /** `s[a:b]` for `0 <= a <= b`. */
  function Slice(s: string, a: nat, b: nat): (r: string)
    requires a <= b
    ensures |r| <= b - a
  {
    s[Min(a, |s|)..Min(b, |s|)]
  }

  /** The value of an ASCII hexadecimal digit, in either case. */
  function HexDigit(c: char): (v: Option<nat>)
    ensures v.Some? ==> v.value < 16
  {
    if '0' <= c <= '9' then Some(c as int - '0' as int)
    else if 'a' <= c <= 'f' then Some(c as int - 'a' as int + 10)
    else if 'A' <= c <= 'F' then Some(c as int - 'A' as int + 10)
    else None
  }

  /**
   * `int(s, 16)` on a slice of at most two characters: one or two hex
   * digits, a sign before one digit, or one digit with whitespace `int()`
   * skips on either side; anything else is a `ValueError`.
   */
  function ParseHex(s: string): (v: Option<int>)
    requires |s| <= 2
    ensures v.Some? ==> -15 <= v.value <= 255
  {
    if |s| == 1 then
      var d := HexDigit(s[0]);
      if d.None? then None else Some(d.value)
    else if |s| == 2 then
      var d0, d1 := HexDigit(s[0]), HexDigit(s[1]);
      if d0.Some? && d1.Some? then Some(16 * d0.value + d1.value)
      else if d1.Some? && s[0] == '+' then Some(d1.value)
      else if d1.Some? && s[0] == '-' then var n: int := d1.value; Some(-n)
      else if d1.Some? && IntSpace(s[0]) then Some(d1.value)
      else if d0.Some? && IntSpace(s[1]) then Some(d0.value)
      else None
    else None
  }

  /**
   * A unit separator beside a digit is not skipped: `str.isspace()` accepts
   * it, but `int("\x1f5", 16)` raises, while a space or a no-break space
   * beside the digit is skipped.
   */
  lemma ParseHexSeparators()
    ensures ParseHex("\U{1F}5") == None && ParseHex("5\U{1C}") == None
    ensures ParseHex(" 5") == Some(5) && ParseHex("5\U{A0}") == Some(5)
    ensures IsSpace('\U{1F}')
  {
  }

  /** The first `n` two-digit channels of `h`, read left to right, or None where one does not parse. */
  function ReadChannels(h: string, n: nat): (cs: Option<seq<int>>)
    ensures cs.Some? ==> |cs.value| == n
    decreases n
  {
    if n == 0 then Some([])
    else
      match ReadChannels(h, n - 1)
      case None => None
      case Some(cs) =>
        var v := ParseHex(Slice(h, 2 * (n - 1), 2 * n));
        if v.None? then None else Some(cs + [v.value])
  }

  /** The three channels `_hex_to_ansi` reads from `#RRGGBB`, or None where it raises. */
  function Channels(hexColor: string): Option<(int, int, int)>
  {
    match ReadChannels(StripHashes(hexColor), 3)
    case None => None
    case Some(cs) => Some((cs[0], cs[1], cs[2]))
  }

  /** `int(x * 255)` for a palette channel. */
  function PaletteChannel(x: real): int
  {
    Trunc(x * 255.0)
  }

  function Square(x: int): int
  {
    x * x
  }

  /** The integer squared distance `_hex_to_ansi` computes to one palette entry. */
  function HexDistance(r: int, g: int, b: int, e: PaletteEntry): int
  {
    Square(r - PaletteChannel(e.rgb.r)) + Square(g - PaletteChannel(e.rgb.g)) + Square(b - PaletteChannel(e.rgb.b))
  }

  /** The distances from a colour to every palette entry, in palette order. */
  function HexDistances(r: int, g: int, b: int): (ds: seq<real>)
    ensures |ds| == |Palette|
    ensures forall k :: 0 <= k < |ds| ==> ds[k] == HexDistance(r, g, b, Palette[k]) as real
  {
    seq(|Palette|, k requires 0 <= k < |Palette| => HexDistance(r, g, b, Palette[k]) as real)
  }

  /** The palette index `_hex_to_ansi` settles on; its initial `best_code` is entry 7's. */
  function HexIndex(r: int, g: int, b: int): (k: nat)
    ensures k < |Palette|
  {
    RunningMin(HexDistances(r, g, b), 7, None).0
  }

  /** What `_hex_to_ansi(hex_color)` returns, or the `ValueError` it raises. */
  function AnsiFor(hexColor: string): Result<string, AsciiError>
  {
    match Channels(hexColor)
    case None => Err(ValueError)
    case Some(c) => Ok(Palette[HexIndex(c.0, c.1, c.2)].code)
  }

  /**
   * `_hex_to_ansi` answers exactly when the three channels parse, and then
   * with the code of the earliest palette entry at the least distance.
   */
  lemma AnsiForNearest(hexColor: string)
    ensures AnsiFor(hexColor).Ok? <==> Channels(hexColor).Some?
    ensures Channels(hexColor).Some? ==>
      var c := Channels(hexColor).value;
      EarliestMin(HexDistances(c.0, c.1, c.2), HexIndex(c.0, c.1, c.2)) &&
      AnsiFor(hexColor).value == Palette[HexIndex(c.0, c.1, c.2)].code
  {
    if Channels(hexColor).Some? {
      var c := Channels(hexColor).value;
      var ds := HexDistances(c.0, c.1, c.2);
      RunningMinSpec(ds, 7, None);
      assert Below(ds[0], None);
    }
  }

  /** `_hex_to_ansi`: parse `#RRGGBB`, then look for the nearest palette entry. */
  method HexToAnsi(hexColor: string) returns (r: Result<string, AsciiError>)
    ensures r == AnsiFor(hexColor)
  {
    var channels := Channels(hexColor);
    if channels.None? {
      return Err(ValueError);
    }
    var (red, green, blue) := channels.value;
    var code := NearestCode(red, green, blue);
    r := Ok(code);
  }

  /** The palette loop of `_hex_to_ansi`: keep the first entry closer than every one before it. */
  method NearestCode(red: int, green: int, blue: int) returns (bestCode: string)
    ensures bestCode == Palette[HexIndex(red, green, blue)].code
  {
    ghost var ds := HexDistances(red, green, blue);
    var minDistance: Option<real> := None;
    bestCode := "\U{1B}[37m";
    ghost var best: nat := 7;
    for i := 0 to |Palette|
      invariant (best, minDistance) == RunningMin(ds[..i], 7, None)
      invariant best < |Palette| && bestCode == Palette[best].code
    {
      RunningMinSnoc(ds, i, 7, None);
      var distance := HexDistance(red, green, blue, Palette[i]);
      if Below(distance as real, minDistance) {
        minDistance := Some(distance as real);
        bestCode := Palette[i].code;
        best := i;
      }
    }
    assert ds[..|Palette|] == ds;
  }

  /** The channel levels the palette uses. */
  predicate PaletteLevel(x: real)
  {
    x == 0.0 || x == 0.5 || x == 0.75 || x == 1.0
  }

  /** Every palette channel is one of the four levels. */
  lemma PaletteLevels()
    ensures forall k :: 0 <= k < |Palette| ==>
      PaletteLevel(Palette[k].rgb.r) && PaletteLevel(Palette[k].rgb.g) && PaletteLevel(Palette[k].rgb.b)
  {
  }

  /** Only full intensity becomes 255 and only zero becomes 0. */
  lemma PaletteChannelLevel(x: real)
    requires PaletteLevel(x)
    ensures 0 <= PaletteChannel(x) <= 255
    ensures PaletteChannel(x) == 255 <==> x == 1.0
    ensures PaletteChannel(x) == 0 <==> x == 0.0
  {
  }

  /** Entry 9 is the only pure red of the palette. */
  lemma OnlyOneRed()
    ensures Palette[9].rgb == Rgb(1.0, 0.0, 0.0) && Palette[9].code == "\U{1B}[91m"
    ensures forall k :: 0 <= k < |Palette| && k != 9 ==> Palette[k].rgb != Rgb(1.0, 0.0, 0.0)
  {
  }

  /** The distance from pure red to a palette entry is zero exactly for a pure red entry. */
  lemma RedDistance(e: PaletteEntry)
    requires PaletteLevel(e.rgb.r) && PaletteLevel(e.rgb.g) && PaletteLevel(e.rgb.b)
    ensures HexDistance(255, 0, 0, e) >= 0
    ensures HexDistance(255, 0, 0, e) == 0 <==> e.rgb == Rgb(1.0, 0.0, 0.0)
  {
    PaletteChannelLevel(e.rgb.r);
    PaletteChannelLevel(e.rgb.g);
    PaletteChannelLevel(e.rgb.b);
  }

  /** `lstrip("#")` removes the one leading '#' of `#ff0000`. */
  lemma RedStripped()
    ensures StripHashes("#ff0000") == "ff0000"
  {
    assert "#ff0000"[1..] == "ff0000";
    assert "ff0000"[0] == 'f';
  }

  /** `#ff0000` reads as the channels (255, 0, 0). */
  lemma RedChannels(hexColor: string)
    requires hexColor == "#ff0000"
    ensures Channels(hexColor) == Some((255, 0, 0))
  {
    RedStripped();
    var h := StripHashes("#ff0000");
    assert Slice(h, 0, 2) == "ff" && Slice(h, 2, 4) == "00" && Slice(h, 4, 6) == "00";
    assert ParseHex("ff") == Some(255);
    assert ParseHex("00") == Some(0);
  }

  /** Pure red is at distance zero from entry 9 only. */
  lemma RedIsEarliest(c: (int, int, int))
    requires c == (255, 0, 0)
    ensures EarliestMin(HexDistances(c.0, c.1, c.2), 9)
  {
    var ds := HexDistances(c.0, c.1, c.2);
    PaletteLevels();
    OnlyOneRed();
    forall j | 0 <= j < |ds|
      ensures ds[j] >= 0.0 && (ds[j] == 0.0 <==> j == 9)
    {
      RedDistance(Palette[j]);
    }
  }

  /** A colour whose channels are nearest to entry `k`, earliest among equals, maps to entry `k`'s code. */
  lemma NearestEntry(hexColor: string, c: (int, int, int), k: nat)
    requires Channels(hexColor) == Some(c)
    requires EarliestMin(HexDistances(c.0, c.1, c.2), k)
    ensures AnsiFor(hexColor) == Ok(Palette[k].code)
  {
    AnsiForNearest(hexColor);
    EarliestMinUnique(HexDistances(c.0, c.1, c.2), k, HexIndex(c.0, c.1, c.2));
  }

  /** An exact palette colour such as `#ff0000` maps to its own code. */
  lemma PureRedIsBrightRed(hexColor: string)
    requires hexColor == "#ff0000"
    ensures AnsiFor(hexColor) == Ok("\U{1B}[91m")
  {
    RedChannels(hexColor);
    RedIsNine(hexColor);
    OnlyOneRed();
  }

  /** Any colour whose channels read as (255, 0, 0) maps to entry 9. */
  lemma RedIsNine(hexColor: string)
    requires Channels(hexColor) == Some((255, 0, 0))
    ensures AnsiFor(hexColor) == Ok(Palette[9].code)
  {
    var c := Channels(hexColor).value;
    RedIsEarliest(c);
    NearestEntry(hexColor, c, 9);
  }

  // ---------------------------------------------------------------------
  // `_convert_color` and `_apply_color`
  // ---------------------------------------------------------------------

  /** A palette colour dimmed by `brightness`: `[v * brightness for v in rgb]`. */
  function Scale(c: Rgb, brightness: real): Rgb
  {
    Rgb(c.r * brightness, c.g * brightness, c.b * brightness)
  }

  /** The distances `_convert_color` compares, in palette order. */
  function ScaledDistances(rgb: Rgb, brightness: real): (ds: seq<real>)
    ensures |ds| == |Palette|
    ensures forall k :: 0 <= k < |ds| ==> ds[k] == L2Min(Scale(Palette[k].rgb, brightness), rgb)
  {
    seq(|Palette|, k requires 0 <= k < |Palette| => L2Min(Scale(Palette[k].rgb, brightness), rgb))
  }

  /** The palette index `_convert_color` settles on, starting from index 0 and bound 2.0. */
  function ConvertIndex(rgb: Rgb, brightness: real): (k: nat)
    ensures k < |Palette|
  {
    RunningMin(ScaledDistances(rgb, brightness), 0, Some(2.0)).0
  }

  /**
   * `_convert_color` picks the earliest nearest dimmed palette entry when
   * some entry is closer than 2.0, and entry 0 otherwise.
   */
  lemma ConvertIndexNearest(rgb: Rgb, brightness: real)
    ensures var ds, k := ScaledDistances(rgb, brightness), ConvertIndex(rgb, brightness);
      if exists j :: 0 <= j < |ds| && ds[j] < 2.0
      then EarliestMin(ds, k) && ds[k] < 2.0
      else k == 0
  {
    RunningMinSpec(ScaledDistances(rgb, brightness), 0, Some(2.0));
  }

  /** `_convert_color`: the running minimum over the dimmed palette, below 2.0. */
  method ConvertColor(rgb: Rgb, brightness: real) returns (code: string)
    ensures code == Palette[ConvertIndex(rgb, brightness)].code
  {
    ghost var ds := ScaledDistances(rgb, brightness);
    var minDistance := 2.0;
    var index: nat := 0;
    for i := 0 to |Palette|
      invariant (index, Some(minDistance)) == RunningMin(ds[..i], 0, Some(2.0))
      invariant index < |Palette|
    {
      var distance := L2Min(Scale(Palette[i].rgb, brightness), rgb);
      assert distance == ds[i];
      RunningMinSnoc(ds, i, 0, Some(2.0));
      assert Below(distance, Some(minDistance)) == (distance < minDistance);
      if distance < minDistance {
        index := i;
        minDistance := distance;
      }
    }
    assert ds[..|Palette|] == ds;
    code := Palette[index].code;
  }

  /** Whether a colour is a string starting with '#'. */
  predicate IsHex(c: Color)
  {
    c.Str? && |c.s| > 0 && c.s[0] == '#'
  }

  /** `_apply_color`: a hex colour wraps the text in its ANSI code and a reset; anything else leaves it alone. */
  function ApplyColor(text: string, color: Color): (r: Result<string, AsciiError>)
    ensures !IsHex(color) ==> r == Ok(text)
    ensures IsHex(color) ==> (r.Ok? <==> Channels(color.s).Some?)
    ensures r.Err? ==> r.error == ValueError
  {
    if IsHex(color) then
      match AnsiFor(color.s)
      case Err(e) => Err(e)
      case Ok(code) => Ok(code + text + Reset)
    else Ok(text)
  }

  /** A hex colour that applies wraps the text in one palette code and the reset. */
  lemma ApplyColorWraps(text: string, color: Color)
    requires IsHex(color) && ApplyColor(text, color).Ok?
    ensures exists k :: 0 <= k < |Palette| && ApplyColor(text, color).value == Palette[k].code + text + Reset
  {
    var c := Channels(color.s).value;
    var k := HexIndex(c.0, c.1, c.2);
    assert ApplyColor(text, color).value == Palette[k].code + text + Reset;
  }
}
