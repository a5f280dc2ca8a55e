/** Character classes and the small string operations the parser relies on:
    the ASCII parts of the regular-expression classes `\s` and `\d`, Python's
    `int()` on a run of decimal digits, `str(n)`, `f"{n:02d}"`, `str.strip()`
    and `str.split('\n')`. */
module Text {

  /** Python's `str.isspace()` (and so the regex class `\s`) restricted to
      ASCII: tab, line feed, vertical tab, form feed, carriage return, the four
      information separators 0x1C-0x1F, and space. */
  predicate IsSpace(c: char) {
    c == ' ' || '\t' <= c <= '\r' || '\U{1C}' <= c <= '\U{1F}'
  }

  predicate IsDigit(c: char) { '0' <= c <= '9' }

  predicate IsUpper(c: char) { 'A' <= c <= 'Z' }

  predicate IsLower(c: char) { 'a' <= c <= 'z' }

  /** Every character of `s[i..j]` is whitespace. */
  predicate SpacesIn(s: string, i: int, j: int)
    requires 0 <= i <= j <= |s|
  {
    forall k :: i <= k < j ==> IsSpace(s[k])
  }

  /** Every character of `s[i..j]` is a decimal digit. */
  predicate DigitsIn(s: string, i: int, j: int)
    requires 0 <= i <= j <= |s|
  {
    forall k :: i <= k < j ==> IsDigit(s[k])
  }

  predicate AllSpace(s: string) {
    forall k :: 0 <= k < |s| ==> IsSpace(s[k])
  }

  predicate AllDigits(s: string) {
    forall k :: 0 <= k < |s| ==> IsDigit(s[k])
  }

  lemma SpacesSlice(s: string, i: nat, j: nat)
    requires i <= j <= |s| && SpacesIn(s, i, j)
    ensures AllSpace(s[i..j])
  {
    assert forall k :: 0 <= k < j - i ==> s[i..j][k] == s[i + k];
  }

  lemma DigitsSlice(s: string, i: nat, j: nat)
    requires i <= j <= |s| && DigitsIn(s, i, j)
    ensures AllDigits(s[i..j])
  {
    assert forall k :: 0 <= k < j - i ==> s[i..j][k] == s[i + k];
  }

  /** A string that continues with `x + y` at `k` holds `x` there and then `y`. */
  lemma SplitAt(s: string, k: nat, x: string, y: string)
    requires k <= |s| && s[k..] == x + y
    ensures k + |x| <= |s|
    ensures s[k..k + |x|] == x && s[k + |x|..] == y
  {
    assert s[k..k + |x|] == s[k..][..|x|];
    assert s[k + |x|..] == s[k..][|x|..];
  }

  /** A digit string found inside `s` makes a digit range of `s`. */
  lemma DigitsFrom(s: string, i: nat, x: string)
    requires i + |x| <= |s| && s[i..i + |x|] == x && AllDigits(x)
    ensures DigitsIn(s, i, i + |x|)
  {
    assert forall j :: i <= j < i + |x| ==> s[j] == x[j - i];
  }

  /** A whitespace string found inside `s` makes a whitespace range of `s`. */
  lemma SpacesFrom(s: string, i: nat, x: string)
    requires i + |x| <= |s| && s[i..i + |x|] == x && AllSpace(x)
    ensures SpacesIn(s, i, i + |x|)
  {
    assert forall j :: i <= j < i + |x| ==> s[j] == x[j - i];
  }

  /** `s[i..]` is `s[i..j]` followed by `s[j..]`. */
  lemma Glue(s: string, i: nat, j: nat)
    requires i <= j <= |s|
    ensures s[i..] == s[i..j] + s[j..]
  {
  }

  /** The end of the longest whitespace run that starts at `i`: what a greedy
      `\s*` (or `\s+`, when the result exceeds `i`) consumes from there. */
  function SpanSpace(s: string, i: nat): (r: nat)
    requires i <= |s|
    ensures i <= r <= |s|
    ensures SpacesIn(s, i, r)
    ensures r == |s| || !IsSpace(s[r])
    decreases |s| - i
  {
    if i < |s| && IsSpace(s[i]) then SpanSpace(s, i + 1) else i
  }

  /** The end of the longest digit run that starts at `i` (a greedy `\d*`). */
  function SpanDigits(s: string, i: nat): (r: nat)
    requires i <= |s|
    ensures i <= r <= |s|
    ensures DigitsIn(s, i, r)
    ensures r == |s| || !IsDigit(s[r])
    decreases |s| - i
  {
    if i < |s| && IsDigit(s[i]) then SpanDigits(s, i + 1) else i
  }

  /** A whitespace run is a whitespace run exactly when it is the longest one:
      any run that ends before a non-space is the one `SpanSpace` finds, and no
      run is longer. */
  lemma SpanSpaceExact(s: string, i: nat, k: nat)
    requires i <= k <= |s| && SpacesIn(s, i, k)
    ensures k <= SpanSpace(s, i)
    ensures (k == |s| || !IsSpace(s[k])) ==> k == SpanSpace(s, i)
  {
  }

  lemma SpanDigitsExact(s: string, i: nat, k: nat)
    requires i <= k <= |s| && DigitsIn(s, i, k)
    ensures k <= SpanDigits(s, i)
    ensures (k == |s| || !IsDigit(s[k])) ==> k == SpanDigits(s, i)
  {
  }

  function DigitValue(c: char): (d: nat)
    requires IsDigit(c)
    ensures d < 10
  {
    (c as int) - ('0' as int)
  }

  function DigitChar(d: nat): (c: char)
    requires d < 10
    ensures IsDigit(c) && DigitValue(c) == d
  {
    (('0' as int) + d) as char
  }

  /** Python's `int(t)` for a string of ASCII decimal digits (leading zeros
      allowed, so `int("0024") == 24`). */
  function DecValue(t: string): nat
    requires AllDigits(t)
  {
    if |t| == 0 then 0 else DecValue(t[..|t| - 1]) * 10 + DigitValue(t[|t| - 1])
  }

  /** A string of at most `n` digits has a value below 10^n; the cases used here. */
  lemma DecValueBound(t: string)
    requires AllDigits(t) && |t| <= 4
    ensures |t| <= 2 ==> DecValue(t) < 100
    ensures DecValue(t) < 10000
  {
    if |t| > 0 {
      DecValueBound(t[..|t| - 1]);
    }
  }

  /** Python's `str(n)` for a non-negative integer: its shortest decimal form. */
  function NatToString(n: nat): (r: string)
    ensures |r| > 0 && AllDigits(r)
    ensures DecValue(r) == n
    ensures |r| > 1 ==> r[0] != '0'
  {
    if n < 10 then [DigitChar(n)]
    else
      var front := NatToString(n / 10);
      var r := front + [DigitChar(n % 10)];
      assert r[..|r| - 1] == front;
      assert DecValue(r) == DecValue(front) * 10 + n % 10;
      assert n == (n / 10) * 10 + n % 10;
      r
  }

  /** A decimal form without a superfluous leading zero, as `str(n)` writes it. */
  predicate Canonical(t: string) {
    |t| > 0 && AllDigits(t) && (|t| == 1 || t[0] != '0')
  }

  /** A digit string that does not start with `0` has a positive value. */
  lemma {:induction false} LeadingDigitValue(t: string)
    requires |t| > 0 && AllDigits(t) && t[0] != '0'
    ensures DecValue(t) >= 1
  {
    if |t| > 1 {
      var front := t[..|t| - 1];
      assert front[0] == t[0];
      LeadingDigitValue(front);
    }
  }

  /** Distinct canonical decimal forms have distinct values, so `str(n)` is the
      only canonical form of `n`. */
  lemma {:induction false} CanonicalUnique(a: string, b: string)
    requires Canonical(a) && Canonical(b) && DecValue(a) == DecValue(b)
    ensures a == b
  {
    var fa, fb := a[..|a| - 1], b[..|b| - 1];
    var da, db := DigitValue(a[|a| - 1]), DigitValue(b[|b| - 1]);
    assert DecValue(a) == DecValue(fa) * 10 + da;
    assert DecValue(b) == DecValue(fb) * 10 + db;
    assert da == db && DecValue(fa) == DecValue(fb);
    assert a[|a| - 1] == b[|b| - 1];
    if |a| > 1 && |b| > 1 {
      assert fa[0] == a[0] && fb[0] == b[0];
      CanonicalUnique(fa, fb);
      assert a == fa + [a[|a| - 1]];
      assert b == fb + [b[|b| - 1]];
    } else if |a| > 1 {
      assert fa[0] == a[0];
      LeadingDigitValue(fa);
    } else if |b| > 1 {
      assert fb[0] == b[0];
      LeadingDigitValue(fb);
    }
  }

  /** Two-digit forms with the same value are the same, so `f"{n:02d}"` is the
      only two-digit form of `n`. */
  lemma TwoDigitsUnique(a: string, b: string)
    requires |a| == 2 && |b| == 2 && AllDigits(a) && AllDigits(b) && DecValue(a) == DecValue(b)
    ensures a == b
  {
    assert DecValue(a[..1]) == DigitValue(a[0]) by { assert a[..1][..0] == []; }
    assert DecValue(b[..1]) == DigitValue(b[0]) by { assert b[..1][..0] == []; }
    assert DigitValue(a[0]) == DigitValue(b[0]) && DigitValue(a[1]) == DigitValue(b[1]);
  }

  /** Python's `f"{n:02d}"` for `0 <= n < 100`: exactly two digits, zero-padded. */
  function Pad2(n: nat): (r: string)
    requires n < 100
    ensures |r| == 2 && AllDigits(r)
    ensures DecValue(r) == n
  {
    var r := [DigitChar(n / 10), DigitChar(n % 10)];
    assert r[..1] == [r[0]] && r[..1][..0] == [];
    assert DecValue(r[..1]) == n / 10;
    r
  }

  /** Python's `str.strip()`: `s` without its leading and trailing whitespace. */
  function Strip(s: string): (r: string)
    ensures |r| <= |s|
    ensures |r| > 0 ==> !IsSpace(r[0]) && !IsSpace(r[|r| - 1])
    ensures exists i :: 0 <= i && i + |r| <= |s| && s[i..i + |r|] == r
                        && SpacesIn(s, 0, i) && SpacesIn(s, i + |r|, |s|)
  {
    var i := SpanSpace(s, 0);
    var j := TrailEnd(s, i, |s|);
    assert SpacesIn(s, 0, i);
    s[i..j]
  }

  /** The end of `s[i..j]` once trailing whitespace is dropped. */
  function TrailEnd(s: string, i: nat, j: nat): (r: nat)
    requires i <= j <= |s|
    requires SpacesIn(s, j, |s|)
    ensures i <= r <= j
    ensures SpacesIn(s, r, |s|)
    ensures r > i ==> !IsSpace(s[r - 1])
    decreases j
  {
    if j > i && IsSpace(s[j - 1]) then TrailEnd(s, i, j - 1) else j
  }

  /** A line of text: what `text.split('\n')` yields, so it holds no line feed. */
  type Line = s: string | '\n' !in s witness ""

  /** Python's `"\n".join(lines)`, defined for the non-empty lists `split` yields. */
  function JoinLines(lines: seq<Line>): string
    requires |lines| > 0
  {
    if |lines| == 1 then lines[0] else lines[0] + "\n" + JoinLines(lines[1..])
  }

  /** The index of the first line feed at or after `i`, or `|t|` if there is none. */
  function NextNewline(t: string, i: nat): (k: nat)
    requires i <= |t|
    ensures i <= k <= |t|
    ensures forall j :: i <= j < k ==> t[j] != '\n'
    ensures k < |t| ==> t[k] == '\n'
    decreases |t| - i
  {
    if i == |t| || t[i] == '\n' then i else NextNewline(t, i + 1)
  }

  function NewlineCount(t: string): nat {
    if |t| == 0 then 0 else (if t[0] == '\n' then 1 else 0) + NewlineCount(t[1..])
  }

  /** Python's `text.split('\n')`: the pieces between line feeds, in order.
      Joining them back gives the text, and there is one more piece than there
      are line feeds (so the empty text is one empty line). */
  function SplitLines(t: string): (r: seq<Line>)
    ensures |r| > 0
    ensures JoinLines(r) == t
    ensures |r| == NewlineCount(t) + 1
    decreases |t|
  {
    var k := NextNewline(t, 0);
    assert '\n' !in t[..k] by {
      forall j | 0 <= j < k ensures t[..k][j] != '\n' { }
    }
    if k == |t| then
      assert t == t[0..k];
      NoNewlineCount(t);
      [t]
    else
      var rest := SplitLines(t[k + 1..]);
      assert t == t[..k] + "\n" + t[k + 1..];
      NewlineCountSplit(t, k);
      [t[..k]] + rest
  }

  lemma NoNewlineCount(t: string)
    requires '\n' !in t
    ensures NewlineCount(t) == 0
  {
    if |t| > 0 {
      assert '\n' !in t[1..];
      NoNewlineCount(t[1..]);
    }
  }

  lemma NewlineCountSplit(t: string, k: nat)
    requires k < |t| && t[k] == '\n' && '\n' !in t[..k]
    ensures NewlineCount(t) == 1 + NewlineCount(t[k + 1..])
    decreases k
  {
    if k > 0 {
      assert t[1..][..k - 1] == t[1..k];
      assert '\n' !in t[1..][..k - 1];
      NewlineCountSplit(t[1..], k - 1);
      assert t[1..][k..] == t[k + 1..];
    }
  }

  /** Splitting undoes joining: `"\n".join(ls).split('\n') == ls` for any
      non-empty list of newline-free lines. */
  lemma {:induction false} SplitJoin(lines: seq<Line>)
    requires |lines| > 0
    ensures SplitLines(JoinLines(lines)) == lines
    decreases |lines|
  {
    var t := JoinLines(lines);
    var first := lines[0];
    if |lines| == 1 {
      assert forall j :: 0 <= j < |t| ==> t[j] != '\n' by {
        forall j | 0 <= j < |t| ensures t[j] != '\n' {
          assert t[j] in t;
        }
      }
      FirstNewlineAt(t, |t|);
    } else {
      var rest := JoinLines(lines[1..]);
      assert t == first + "\n" + rest;
      assert forall j :: 0 <= j < |first| ==> t[j] != '\n' by {
        forall j | 0 <= j < |first| ensures t[j] != '\n' {
          assert t[j] == first[j];
          assert first[j] in first;
        }
      }
      FirstNewlineAt(t, |first|);
      assert t[..|first|] == first;
      assert t[|first| + 1..] == rest;
      SplitJoin(lines[1..]);
      assert lines == [first] + lines[1..];
    }
  }

  /** When `t[..k]` holds no line feed and `t[k]` is one (or `k` is the end),
      the first line feed is found at `k`. */
  lemma FirstNewlineAt(t: string, k: nat)
    requires k <= |t| && forall j :: 0 <= j < k ==> t[j] != '\n'
    requires k < |t| ==> t[k] == '\n'
    ensures NextNewline(t, 0) == k
  {
  }
}
