/**
 * The few Python built-ins whose exact behaviour the layout code relies on:
 * `int()` on a float, floor division, list indexing with negative
 * indices, and the `str` methods `ljust`, `rjust`, `center`, `strip`, `split`
 * and `join`. Strings are sequences of characters; no encoding is involved.
 */
module PyLib {
  import opened Wrappers

  function Min(a: int, b: int): int { if a <= b then a else b }

  function Max(a: int, b: int): int { if a >= b then a else b }

  /** `int(x)` for a float `x`: truncation toward zero. */
  function Trunc(x: real): (r: int)
    ensures 0.0 <= x ==> r as real <= x < r as real + 1.0
    ensures x < 0.0 ==> r as real - 1.0 < x <= r as real
  {
    if x >= 0.0 then x.Floor else -((-x).Floor)
  }

  /**
   * `int(n / d)` for `d > 0`: the exact quotient truncated toward zero. Dafny's
   * `/` on `int` is Euclidean, which agrees only for `n >= 0`, so the
   * magnitude is taken with `Quot` and the sign put back.
   */
  function TruncDiv(n: int, d: int): int
    requires d > 0
  {
    if n >= 0 then Quot(n, d) else -(Quot(-n, d) as int)
  }

  /** The quotient of a natural number by repeated subtraction of `d`. */
  function Quot(n: nat, d: int): nat
    requires d > 0
    decreases n
  {
    if n < d then 0 else 1 + Quot(n - d, d)
  }

  /** Concatenation is associative. */
  lemma AppendAssoc<T>(a: seq<T>, b: seq<T>, c: seq<T>)
    ensures a + (b + c) == (a + b) + c
  {
  }

  /** `Quot` is Euclidean division on natural numbers. */
  lemma {:induction false} QuotIsDiv(n: nat, d: int)
    requires d > 0
    ensures Quot(n, d) == n / d
    decreases n
  {
    if n >= d {
      QuotIsDiv(n - d, d);
      var q, r := (n - d) / d, (n - d) % d;
      assert n == (q + 1) * d + r;
      DivUnique(n, d, q + 1, r);
    } else {
      DivUnique(n, d, 0, n);
    }
  }

  /** A quotient and remainder in range are the Euclidean ones. */
  lemma DivUnique(n: int, d: int, q: int, r: int)
    requires d > 0 && n == q * d + r && 0 <= r < d
    ensures n / d == q
  {
    var q0, r0 := n / d, n % d;
    assert (q - q0) * d == q * d - q0 * d;
    assert (q - q0) * d == r0 - r;
    BelowOne(q - q0, d);
    assert (q0 - q) * d == q0 * d - q * d;
    BelowOne(q0 - q, d);
  }

  lemma BelowOne(x: int, d: int)
    requires x * d < d && d > 0
    ensures x <= 0
  {
  }

  /** A larger dividend never has a smaller quotient. */
  lemma {:induction false} QuotMonotone(a: nat, b: nat, d: int)
    requires a <= b && d > 0
    ensures Quot(a, d) <= Quot(b, d)
    decreases b
  {
    if a >= d {
      QuotMonotone(a - d, b - d, d);
    }
  }

  /** Multiplying by a non-negative factor keeps the order. */
  lemma MulMonotone(a: int, b: int, p: int)
    requires a <= b && p >= 0
    ensures a * p <= b * p
  {
    assert b * p - a * p == (b - a) * p;
  }

  /** Truncating division keeps the order of its dividends. */
  lemma TruncDivMonotone(n1: int, n2: int, d: int)
    requires n1 <= n2 && d > 0
    ensures TruncDiv(n1, d) <= TruncDiv(n2, d)
  {
    if 0 <= n1 {
      QuotMonotone(n1, n2, d);
    } else if n2 < 0 {
      QuotMonotone(-n2, -n1, d);
    }
  }

  /** Truncation is monotone, so it preserves the order of cell edges. */
  lemma TruncMonotone(x: real, y: real)
    requires x <= y
    ensures Trunc(x) <= Trunc(y)
  {
  }

  /** A fraction of a non-negative amount lies between zero and that amount. */
  lemma ProductBelow(b: real, m: real)
    requires 0.0 <= b <= 1.0 && 0.0 <= m
    ensures 0.0 <= b * m <= m
  {
    assert m - b * m == (1.0 - b) * m;
  }

  /** Python's `a // b`: the floor of the true quotient. */
  function FloorDiv(a: int, b: int): (q: int)
    requires b != 0
    ensures b > 0 ==> q * b <= a < q * b + b
    ensures b < 0 ==> q * b >= a > q * b + b
  {
    if b > 0 then a / b else (-a) / (-b)
  }

  /** The position `xs[i]` reads in a list of length `n`, or None where Python raises IndexError. */
  function PyIndex(n: nat, i: int): (k: Option<nat>)
    ensures k.Some? <==> 0 <= i + n && i < n
    ensures k.Some? ==> k.value < n && (k.value == i || k.value == n + i)
  {
    if 0 <= i < n then Some(i) else if 0 <= i + n && i < 0 then Some(n + i) else None
  }

  /**
   * The whitespace `int(s, base)` skips around the digits of a string: on an
   * ASCII string only `\t` to `\r` and the space, while a non-ASCII string
   * first has every `str.isspace()` character turned into a space. A string
   * that holds a digit and one of U+001C..U+001F is ASCII, so those four
   * separators, which `str.isspace()` accepts, are never skipped.
   */
  predicate IntSpace(c: char)
  {
    IsSpace(c) && !('\U{1C}' <= c <= '\U{1F}')
  }

  /** The characters `str.isspace()` accepts; `str.split()` and `str.strip()` split and trim on them. */
  predicate IsSpace(c: char)
  {
    c == ' ' || ('\t' <= c <= '\r') || ('\U{1C}' <= c <= '\U{1F}') || c == '\U{85}' || c == '\U{A0}'
    || c == '\U{1680}' || ('\U{2000}' <= c <= '\U{200A}') || c == '\U{2028}' || c == '\U{2029}'
    || c == '\U{202F}' || c == '\U{205F}' || c == '\U{3000}'
  }

  /** `" " * n`; empty when `n` is not positive. */
  function Spaces(n: int): (s: string)
    ensures |s| == Max(n, 0)
    ensures forall i :: 0 <= i < |s| ==> s[i] == ' '
  {
    if n <= 0 then "" else seq(n, _ => ' ')
  }

  /** `s[:n]`, including Python's reading of a negative `n` as counting from the end. */
  function SliceTo(s: string, n: int): (r: string)
    ensures 0 <= n ==> r == s[..Min(n, |s|)]
    ensures n < 0 ==> r == s[..Max(|s| + n, 0)]
  {
    if n >= |s| then s else if n >= 0 then s[..n] else if |s| + n >= 0 then s[..|s| + n] else ""
  }

  /** `s.ljust(w)`: `s` padded on the right with spaces up to width `w`. */
  function LJust(s: string, w: int): (r: string)
    ensures r == s + Spaces(w - |s|)
  {
    if w <= |s| then s else s + Spaces(w - |s|)
  }

  /** `s.rjust(w)`: `s` padded on the left with spaces up to width `w`. */
  function RJust(s: string, w: int): (r: string)
    ensures r == Spaces(w - |s|) + s
  {
    if w <= |s| then s else Spaces(w - |s|) + s
  }

  /**
   * The left padding `s.center(w)` uses (CPython's `marg / 2 + (marg & w & 1)`):
   * half the margin, rounded up only when both the margin and the width are odd.
   */
  function CenterLeft(len: nat, w: int): (left: int)
    ensures w <= len ==> left == 0
    ensures w > len ==> 0 <= left <= w - len && -1 <= (w - len - left) - left <= 1
  {
    if w <= len then 0
    else
      var marg := w - len;
      marg / 2 + (if marg % 2 == 1 && w % 2 == 1 then 1 else 0)
  }

  /** `s.center(w)`: `s` between left and right space padding that differ by at most one. */
  function Center(s: string, w: int): (r: string)
    ensures r == Spaces(CenterLeft(|s|, w)) + s + Spaces(w - |s| - CenterLeft(|s|, w))
  {
    if w <= |s| then s
    else
      var left := CenterLeft(|s|, w);
      Spaces(left) + s + Spaces(w - |s| - left)
  }

  /** `s.lstrip()`: `s` without its leading whitespace. */
  function StripLeft(s: string): (r: string)
    ensures |r| <= |s| && r == s[|s| - |r|..]
    ensures r == [] || !IsSpace(r[0])
    ensures forall i :: 0 <= i < |s| - |r| ==> IsSpace(s[i])
  {
    if s == [] || !IsSpace(s[0]) then s else StripLeft(s[1..])
  }

  /** `s.rstrip()`: `s` without its trailing whitespace. */
  function StripRight(s: string): (r: string)
    ensures |r| <= |s| && r == s[..|r|]
    ensures r == [] || !IsSpace(r[|r| - 1])
    ensures forall i :: |r| <= i < |s| ==> IsSpace(s[i])
  {
    if s == [] || !IsSpace(s[|s| - 1]) then s else StripRight(s[..|s| - 1])
  }

  /** `s.strip()`. */
  function Strip(s: string): string
  {
    StripRight(StripLeft(s))
  }

  /** A word of `str.split()`: non-empty and free of whitespace. */
  predicate IsWord(w: string)
  {
    w != [] && forall i :: 0 <= i < |w| ==> !IsSpace(w[i])
  }

  /** The leading run of non-whitespace characters of `s`. */
  function TakeWord(s: string): (w: string)
    ensures |w| <= |s| && w == s[..|w|]
    ensures forall i :: 0 <= i < |w| ==> !IsSpace(s[i])
    ensures |w| < |s| ==> IsSpace(s[|w|])
    ensures s != [] && !IsSpace(s[0]) ==> IsWord(w)
  {
    if s == [] || IsSpace(s[0]) then [] else [s[0]] + TakeWord(s[1..])
  }

  /** A prefix one longer is the prefix and the next element. */
  lemma TakeOneMore<T>(s: seq<T>, i: nat)
    requires i < |s|
    ensures s[..i + 1] == s[..i] + [s[i]]
  {
  }

  /** The first word of a word is the word itself. */
  lemma TakeWordOfWord(w: string)
    requires IsWord(w)
    ensures TakeWord(w) == w
  {
  }

  /** Text after a whitespace character does not change the first word. */
  lemma {:induction false} TakeWordBeforeSpace(s: string, t: string)
    requires t != [] && IsSpace(t[0])
    ensures TakeWord(s + t) == TakeWord(s)
    decreases |s|
  {
    if s == [] {
      assert s + t == t;
    } else if !IsSpace(s[0]) {
      assert (s + t)[1..] == s[1..] + t;
      TakeWordBeforeSpace(s[1..], t);
    }
  }

  /** `s.split()` with no separator: the maximal runs of non-whitespace, in order. */
  function Split(s: string): (ws: seq<string>)
    ensures forall i :: 0 <= i < |ws| ==> IsWord(ws[i])
    decreases |s|
  {
    if s == [] then []
    else if IsSpace(s[0]) then Split(s[1..])
    else
      var w := TakeWord(s);
      [w] + Split(s[|w|..])
  }

  /** `sep.join(parts)`. */
  function Join(sep: string, parts: seq<string>): string
  {
    if |parts| == 0 then ""
    else if |parts| == 1 then parts[0]
    else Join(sep, parts[..|parts| - 1]) + sep + parts[|parts| - 1]
  }
}
