/**
 * `TextBox` (piltext/text_box.py): a piece of text that can pick the largest
 * font size fitting a box, and wrap a text greedily into lines no wider than
 * a limit. The font manager's measurement is a parameter: `measure(text,
 * size)` is the width and height `calculate_text_size` reports for the text
 * in the font of that size, and `width(line)` the width it reports for a line.
 * A font is represented by its size.
 */
module TextBoxes {
  import opened PyLib

  /** Whether the text measured at `size` is wider or taller than the box. */
  predicate TooBig(measure: (string, int) -> (int, int), text: string, maxWidth: int, maxHeight: int, size: int)
  {
    measure(text, size).0 > maxWidth || measure(text, size).1 > maxHeight
  }

  /** `n` is the first size from `start` on that does not fit: where `fit_text`'s growth stops. */
  predicate FirstTooBig(measure: (string, int) -> (int, int), text: string, maxWidth: int, maxHeight: int, start: int, n: int)
  {
    start <= n && TooBig(measure, text, maxWidth, maxHeight, n) &&
    forall k :: start <= k < n ==> !TooBig(measure, text, maxWidth, maxHeight, k)
  }

  /** Growing the font never makes the text smaller. */
  ghost predicate Monotone(measure: (string, int) -> (int, int), text: string)
  {
    forall a, b :: a <= b ==> measure(text, a).0 <= measure(text, b).0 && measure(text, a).1 <= measure(text, b).1
  }

  /** At most one size is the first that does not fit. */
  lemma FirstTooBigUnique(measure: (string, int) -> (int, int), text: string, maxWidth: int, maxHeight: int, start: int, n: int, m: int)
    requires FirstTooBig(measure, text, maxWidth, maxHeight, start, n)
    requires FirstTooBig(measure, text, maxWidth, maxHeight, start, m)
    ensures n == m
  {
  }

  /**
   * A start size of at least 1 that fits gives a size that fits: the one
   * before the first that does not. With a measurement that grows with the
   * font, every size from that first one on is too big, so the returned size
   * is the largest that fits from `start` on.
   */
  lemma FitSizeFits(measure: (string, int) -> (int, int), text: string, maxWidth: int, maxHeight: int, start: int, n: int)
    requires Monotone(measure, text) && 1 <= start
    requires !TooBig(measure, text, maxWidth, maxHeight, start)
    requires FirstTooBig(measure, text, maxWidth, maxHeight, start, n)
    ensures !TooBig(measure, text, maxWidth, maxHeight, Max(n - 1, 1))
    ensures Max(n - 1, 1) == n - 1 >= start
    ensures forall k :: k >= n ==> TooBig(measure, text, maxWidth, maxHeight, k)
  {
    assert n != start;
    forall k | k >= n
      ensures TooBig(measure, text, maxWidth, maxHeight, k)
    {
      assert measure(text, n).0 <= measure(text, k).0 && measure(text, n).1 <= measure(text, k).1;
    }
  }

  /** A line as `get_wrapped_text_lines` builds it: non-empty, with no whitespace at either end. */
  predicate Trimmed(s: string)
  {
    s != [] && !IsSpace(s[0]) && !IsSpace(s[|s| - 1])
  }

  /** `f"{''} {word}".strip()` is the word itself. */
  lemma StripFirstWord(w: string)
    requires IsWord(w)
    ensures Strip(" " + w) == w
  {
    assert (" " + w)[1..] == w;
    assert IsSpace((" " + w)[0]);
    assert StripLeft(w) == w;
    assert StripLeft(" " + w) == w;
    assert StripRight(w) == w;
  }

  /** `f"{line} {word}".strip()` keeps the line and the word, joined by one space. */
  lemma StripNextWord(line: string, w: string)
    requires Trimmed(line) && IsWord(w)
    ensures Strip(line + " " + w) == line + " " + w
    ensures Trimmed(line + " " + w)
  {
    var s := line + " " + w;
    assert s[0] == line[0] && s[|s| - 1] == w[|w| - 1];
    assert StripLeft(s) == s;
    assert StripRight(s) == s;
  }

  /** `sep.join` of a list with one more part. */
  lemma JoinSnoc(sep: string, parts: seq<string>, p: string)
    ensures Join(sep, parts + [p]) == if parts == [] then p else Join(sep, parts) + sep + p
  {
    assert (parts + [p])[..|parts|] == parts;
  }

  /** Extending the last part of a list extends its join the same way. */
  lemma JoinExtendLast(parts: seq<string>, line: string, w: string)
    ensures Join(" ", parts + [line + " " + w]) == Join(" ", parts + [line]) + " " + w
  {
    JoinSnoc(" ", parts, line + " " + w);
    JoinSnoc(" ", parts, line);
    if parts != [] {
      AppendAssoc(Join(" ", parts) + " ", line, " " + w);
      AppendAssoc(Join(" ", parts) + " " + line, " ", w);
      AppendAssoc(Join(" ", parts) + " ", line + " ", w);
      AppendAssoc(line, " ", w);
    }
  }

  /** The lines so far, with the line being built when there is one. */
  function Pending(lines: seq<string>, current: string): (p: seq<string>)
    ensures current != "" ==> p == lines + [current]
    ensures current == "" ==> p == lines
  {
    if current == "" then lines else lines + [current]
  }

  /** A wrapped line is a single word of the text, or was measured no wider than the limit when it was accepted. */
  predicate Acceptable(width: string -> int, maxWidth: int, words: seq<string>, line: string)
  {
    line in words || width(line) <= maxWidth
  }

  /** Every word is a word of `str.split()`. */
  predicate AllWords(words: seq<string>)
  {
    forall k :: 0 <= k < |words| ==> IsWord(words[k])
  }

  /**
   * The state of `get_wrapped_text_lines` after `i` words: the current line is
   * empty only before the first word, every line so far and the current one
   * are trimmed and acceptable, and together they hold the first `i` words.
   */
  ghost predicate Wrapped(width: string -> int, maxWidth: int, words: seq<string>, i: nat, lines: seq<string>, current: string)
    requires i <= |words|
  {
    (current == "" <==> i == 0) && (i == 0 ==> lines == []) &&
    (current != "" ==> Trimmed(current) && Acceptable(width, maxWidth, words, current)) &&
    (forall j :: 0 <= j < |lines| ==> Trimmed(lines[j]) && Acceptable(width, maxWidth, words, lines[j])) &&
    Join(" ", Pending(lines, current)) == Join(" ", words[..i])
  }

  /**
   * Every line break was forced: the next line's first word, added to the
   * line before it, measures wider than the limit. This is what makes the
   * wrapping greedy.
   */
  predicate Greedy(width: string -> int, maxWidth: int, ls: seq<string>)
  {
    forall j :: 0 <= j < |ls| - 1 ==> width(Strip(ls[j] + " " + TakeWord(ls[j + 1]))) > maxWidth
  }

  /**
   * Every prefix of the line that ends where one of its words ends and holds
   * at least two words measures within the limit: each such prefix was the
   * test line when its last word was accepted. The line's words are
   * separated by single spaces, so these prefixes are the line's first `k`
   * words rejoined, for each `k >= 2`.
   */
  predicate PrefixesFit(width: string -> int, maxWidth: int, line: string)
  {
    forall p :: 0 < p <= |line| && (p == |line| || line[p] == ' ') && ' ' in line[..p] ==> width(line[..p]) <= maxWidth
  }

  /** A single word has no prefix of two words. */
  lemma PrefixesFitWord(width: string -> int, maxWidth: int, w: string)
    requires IsWord(w)
    ensures PrefixesFit(width, maxWidth, w)
  {
    forall p | 0 < p <= |w|
      ensures ' ' !in w[..p]
    {
      forall q | 0 <= q < p
        ensures w[..p][q] != ' '
      {
        assert !IsSpace(w[q]);
      }
    }
  }

  /** A line grown by a word whose test line fits keeps every earlier prefix and adds itself. */
  lemma PrefixesFitAccept(width: string -> int, maxWidth: int, line: string, w: string)
    requires IsWord(w) && PrefixesFit(width, maxWidth, line)
    requires width(line + " " + w) <= maxWidth
    ensures PrefixesFit(width, maxWidth, line + " " + w)
  {
    var l := line + " " + w;
    forall p | 0 < p <= |l| && (p == |l| || l[p] == ' ') && ' ' in l[..p]
      ensures width(l[..p]) <= maxWidth
    {
      if p < |line| {
        assert l[..p] == line[..p] && l[p] == line[p];
      } else if p == |line| {
        assert l[..p] == line == line[..p];
      } else if p < |l| {
        assert false;
      } else {
        assert l[..p] == l;
      }
    }
  }

  /** A line whose first two words overflow is not a wrapped line, whatever the whole line measures. */
  lemma PrefixesFitRejects(width: string -> int, maxWidth: int)
    requires width("a b") > maxWidth
    ensures !PrefixesFit(width, maxWidth, "a b c")
  {
    var l := "a b c";
    assert l[3] == ' ' && l[..3] == "a b" && l[..3][1] == ' ';
  }

  /** Every line in the list has its two-word prefixes within the limit. */
  predicate AllPrefixesFit(width: string -> int, maxWidth: int, ls: seq<string>)
  {
    forall j :: 0 <= j < |ls| ==> PrefixesFit(width, maxWidth, ls[j])
  }

  /** The test line `f"{line} {word}".strip()` that fits keeps every prefix within the limit. */
  lemma PrefixesFitStrip(width: string -> int, maxWidth: int, current: string, w: string)
    requires IsWord(w) && (current != "" ==> Trimmed(current) && PrefixesFit(width, maxWidth, current))
    requires width(Strip(current + " " + w)) <= maxWidth
    ensures PrefixesFit(width, maxWidth, Strip(current + " " + w))
  {
    if current == "" {
      StripFirstWord(w);
      PrefixesFitWord(width, maxWidth, w);
    } else {
      StripNextWord(current, w);
      PrefixesFitAccept(width, maxWidth, current, w);
    }
  }

  /** Accepting a word whose test line fits keeps every prefix within the limit. */
  lemma PrefixesAccept(width: string -> int, maxWidth: int, lines: seq<string>, current: string, w: string)
    requires IsWord(w) && (current != "" ==> Trimmed(current))
    requires width(Strip(current + " " + w)) <= maxWidth
    requires AllPrefixesFit(width, maxWidth, Pending(lines, current))
    ensures AllPrefixesFit(width, maxWidth, Pending(lines, Strip(current + " " + w)))
  {
    var before, line := Pending(lines, current), Strip(current + " " + w);
    if current != "" {
      assert before[|lines|] == current;
    }
    PrefixesFitStrip(width, maxWidth, current, w);
    assert line != "" by {
      if current == "" { StripFirstWord(w); } else { StripNextWord(current, w); }
    }
    var after := lines + [line];
    forall j | 0 <= j < |after|
      ensures PrefixesFit(width, maxWidth, after[j])
    {
      if j < |lines| {
        assert after[j] == before[j];
      }
    }
  }

  /** Starting a new line with a word keeps every prefix within the limit. */
  lemma PrefixesBreak(width: string -> int, maxWidth: int, lines: seq<string>, current: string, w: string)
    requires IsWord(w)
    requires AllPrefixesFit(width, maxWidth, Pending(lines, current))
    ensures AllPrefixesFit(width, maxWidth, Pending(Pending(lines, current), w))
  {
    PrefixesFitWord(width, maxWidth, w);
  }

  /** Accepting a word keeps every break forced: the current line keeps its first word. */
  lemma GreedyAccept(width: string -> int, maxWidth: int, lines: seq<string>, current: string, w: string)
    requires IsWord(w) && (current == "" ==> lines == []) && (current != "" ==> Trimmed(current))
    requires Greedy(width, maxWidth, Pending(lines, current))
    ensures Greedy(width, maxWidth, Pending(lines, Strip(current + " " + w)))
  {
    if current == "" {
      StripFirstWord(w);
    } else {
      StripNextWord(current, w);
      assert current + " " + w == current + (" " + w);
      TakeWordBeforeSpace(current, " " + w);
      GreedySetLast(width, maxWidth, lines, current, current + " " + w);
    }
  }

  /** Replacing the last line by one with the same first word keeps every break forced. */
  lemma GreedySetLast(width: string -> int, maxWidth: int, lines: seq<string>, last: string, last': string)
    requires TakeWord(last') == TakeWord(last)
    requires Greedy(width, maxWidth, lines + [last])
    ensures Greedy(width, maxWidth, lines + [last'])
  {
    var before, after := lines + [last], lines + [last'];
    forall j | 0 <= j < |after| - 1
      ensures width(Strip(after[j] + " " + TakeWord(after[j + 1]))) > maxWidth
    {
      assert after[j] == before[j];
      assert TakeWord(after[j + 1]) == TakeWord(before[j + 1]);
    }
  }

  /** Breaking before a word that overflows the current line adds a forced break. */
  lemma GreedyBreak(width: string -> int, maxWidth: int, lines: seq<string>, current: string, word: string)
    requires IsWord(word) && (current == "" ==> lines == [])
    requires current != "" ==> width(Strip(current + " " + word)) > maxWidth
    requires Greedy(width, maxWidth, Pending(lines, current))
    ensures Greedy(width, maxWidth, Pending(Pending(lines, current), word))
  {
    TakeWordOfWord(word);
    var before := Pending(lines, current);
    var after := before + [word];
    forall j | 0 <= j < |after| - 1
      ensures width(Strip(after[j] + " " + TakeWord(after[j + 1]))) > maxWidth
    {
      assert after[j] == before[j];
      if j + 1 < |before| {
        assert after[j + 1] == before[j + 1];
      }
    }
  }

  /** The word joins the current line when the measured line fits. */
  lemma WrapAccept(width: string -> int, maxWidth: int, words: seq<string>, i: nat, lines: seq<string>, current: string)
    requires AllWords(words) && i < |words|
    requires Wrapped(width, maxWidth, words, i, lines, current)
    requires width(Strip(current + " " + words[i])) <= maxWidth
    ensures Wrapped(width, maxWidth, words, i + 1, lines, Strip(current + " " + words[i]))
  {
    JoinSnoc(" ", words[..i], words[i]);
    TakeOneMore(words, i);
    if current == "" {
      StripFirstWord(words[i]);
    } else {
      StripNextWord(current, words[i]);
      WrapExtend(width, maxWidth, words, i, lines, current);
    }
  }

  /** A non-empty current line grows by a space and the word. */
  lemma WrapExtend(width: string -> int, maxWidth: int, words: seq<string>, i: nat, lines: seq<string>, current: string)
    requires AllWords(words) && i < |words| && current != ""
    requires Wrapped(width, maxWidth, words, i, lines, current)
    requires width(current + " " + words[i]) <= maxWidth
    ensures Wrapped(width, maxWidth, words, i + 1, lines, current + " " + words[i])
  {
    StripNextWord(current, words[i]);
    JoinSnoc(" ", words[..i], words[i]);
    TakeOneMore(words, i);
    JoinExtendLast(lines, current, words[i]);
  }

  /** Otherwise the current line, if any, is finished and the word starts the next one. */
  lemma WrapBreak(width: string -> int, maxWidth: int, words: seq<string>, i: nat, lines: seq<string>, current: string)
    requires AllWords(words) && i < |words|
    requires Wrapped(width, maxWidth, words, i, lines, current)
    ensures Wrapped(width, maxWidth, words, i + 1, Pending(lines, current), words[i])
  {
    var word := words[i];
    JoinSnoc(" ", words[..i], word);
    TakeOneMore(words, i);
    if current != "" {
      JoinSnoc(" ", lines + [current], word);
    }
  }

  /** After the last word, the pending line completes the list. */
  lemma WrapDone(width: string -> int, maxWidth: int, words: seq<string>, lines: seq<string>, current: string)
    requires Wrapped(width, maxWidth, words, |words|, lines, current)
    ensures var result := Pending(lines, current);
      Join(" ", result) == Join(" ", words) &&
      (result == [] <==> words == []) &&
      forall j :: 0 <= j < |result| ==> Trimmed(result[j]) && Acceptable(width, maxWidth, words, result[j])
  {
    assert words[..|words|] == words;
  }

  class TextBox {
    var text: string

    /** `TextBox(text, font_manager)`. */
    constructor(text: string)
      ensures this.text == text
    {
      this.text := text;
    }

    /**
     * `fit_text`: try sizes `start`, `start + 1`, ... until one does not fit,
     * and return the size before it, but never below 1. The source loops for
     * ever when every size from `start` on fits; the precondition rules that
     * out.
     */
    method FitText(measure: (string, int) -> (int, int), maxWidth: int, maxHeight: int, start: int) returns (size: int)
      requires exists n :: start <= n && TooBig(measure, text, maxWidth, maxHeight, n)
      ensures size >= 1
      ensures forall n :: FirstTooBig(measure, text, maxWidth, maxHeight, start, n) ==> size == Max(n - 1, 1)
    {
      ghost var bound :| start <= bound && TooBig(measure, text, maxWidth, maxHeight, bound);
      var fontSize := start;
      while true
        invariant start <= fontSize <= bound
        invariant forall k :: start <= k < fontSize ==> !TooBig(measure, text, maxWidth, maxHeight, k)
        decreases bound - fontSize
      {
        var (width, height) := measure(text, fontSize);
        if width > maxWidth || height > maxHeight {
          forall n | FirstTooBig(measure, text, maxWidth, maxHeight, start, n)
            ensures n == fontSize
          {
            FirstTooBigUnique(measure, text, maxWidth, maxHeight, start, n, fontSize);
          }
          fontSize := fontSize - 1;
          if fontSize < 1 {
            fontSize := 1;
          }
          return fontSize;
        }
        fontSize := fontSize + 1;
      }
    }

    /**
     * `get_wrapped_text_lines`: walk the words of `text`, adding each to the
     * current line while the measured line stays within `maxWidth`, and
     * starting a new line with the word otherwise. The lines rejoin to the
     * words, each fits or is a single word, each break is forced, and every
     * prefix of two or more of a line's words fits, so no earlier break was
     * due.
     */
    method GetWrappedTextLines(text: string, width: string -> int, maxWidth: int) returns (lines: seq<string>)
      ensures Join(" ", lines) == Join(" ", Split(text))
      ensures lines == [] <==> Split(text) == []
      ensures forall i :: 0 <= i < |lines| ==> Trimmed(lines[i]) && Acceptable(width, maxWidth, Split(text), lines[i])
      ensures forall i :: 0 <= i < |lines| - 1 ==> width(Strip(lines[i] + " " + TakeWord(lines[i + 1]))) > maxWidth
      ensures forall i :: 0 <= i < |lines| ==> PrefixesFit(width, maxWidth, lines[i])
    {
      var words := Split(text);
      lines := [];
      var current := "";
      for i := 0 to |words|
        invariant Wrapped(width, maxWidth, words, i, lines, current)
        invariant Greedy(width, maxWidth, Pending(lines, current))
        invariant AllPrefixesFit(width, maxWidth, Pending(lines, current))
      {
        var word := words[i];
        var testLine := Strip(current + " " + word);
        if width(testLine) <= maxWidth {
          WrapAccept(width, maxWidth, words, i, lines, current);
          GreedyAccept(width, maxWidth, lines, current, word);
          PrefixesAccept(width, maxWidth, lines, current, word);
          current := testLine;
        } else {
          WrapBreak(width, maxWidth, words, i, lines, current);
          GreedyBreak(width, maxWidth, lines, current, word);
          PrefixesBreak(width, maxWidth, lines, current, word);
          if current != "" {
            lines := lines + [current];
          }
          current := word;
        }
      }
      WrapDone(width, maxWidth, words, lines, current);
      if current != "" {
        lines := lines + [current];
      }
    }
  }
}
