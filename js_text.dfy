/**
 * The JavaScript string built-ins the checklist code relies on:
 * `String.prototype.trim`, the regular-expression class `\s`, the search
 * for a literal substring, decimal formatting of a number inside a template
 * string, and `Array.prototype.join`.
 */
module JsText {
  import opened Wrappers

  /**
   * ECMAScript WhiteSpace and LineTerminator code points. This one set is
   * what both `trim` strips and what `\s` matches.
   */
  predicate IsWhitespace(c: char) {
    || c == '\t' || c == '\n' || c == '\U{B}' || c == '\U{C}' || c == '\r'
    || c == ' ' || c == '\U{A0}' || c == '\U{1680}'
    || ('\U{2000}' <= c <= '\U{200A}')
    || c == '\U{2028}' || c == '\U{2029}' || c == '\U{202F}' || c == '\U{205F}'
    || c == '\U{3000}' || c == '\U{FEFF}'
  }

  predicate AllWhitespace(s: string) {
    forall i :: 0 <= i < |s| ==> IsWhitespace(s[i])
  }

  /** The first index at or after `from` that does not hold whitespace, or `|s|`. */
  function SkipWhitespace(s: string, from: nat): (r: nat)
    requires from <= |s|
    ensures from <= r <= |s|
    ensures forall i :: from <= i < r ==> IsWhitespace(s[i])
    ensures r < |s| ==> !IsWhitespace(s[r])
    decreases |s| - from
  {
    if from < |s| && IsWhitespace(s[from]) then SkipWhitespace(s, from + 1) else from
  }

  /** `s` with its leading whitespace removed. */
  function TrimStart(s: string): (r: string)
    ensures |r| <= |s| && r == s[|s| - |r|..]
    ensures AllWhitespace(s[..|s| - |r|])
    ensures r != [] ==> !IsWhitespace(r[0])
  {
    s[SkipWhitespace(s, 0)..]
  }

  /** The index after the last character before `to` that is not whitespace, or 0. */
  function SkipWhitespaceBack(s: string, to: nat): (r: nat)
    requires to <= |s|
    ensures r <= to
    ensures forall i :: r <= i < to ==> IsWhitespace(s[i])
    ensures r > 0 ==> !IsWhitespace(s[r - 1])
  {
    if to > 0 && IsWhitespace(s[to - 1]) then SkipWhitespaceBack(s, to - 1) else to
  }

  /** `s` with its trailing whitespace removed. */
  function TrimEnd(s: string): (r: string)
    ensures |r| <= |s| && r == s[..|r|]
    ensures AllWhitespace(s[|r|..])
    ensures r != [] ==> !IsWhitespace(r[|r| - 1])
  {
    s[..SkipWhitespaceBack(s, |s|)]
  }

  /** `String.prototype.trim`. */
  function Trim(s: string): (r: string)
    ensures r != [] ==> !IsWhitespace(r[0]) && !IsWhitespace(r[|r| - 1])
    ensures r == [] <==> AllWhitespace(s)
    ensures exists a, b ::
      0 <= a <= b <= |s| && r == s[a..b] && AllWhitespace(s[..a]) && AllWhitespace(s[b..])
  {
    var t := TrimStart(s);
    var r := TrimEnd(t);
    var a := |s| - |t|;
    var b := a + |r|;
    assert t == s[a..] && r == t[..|r|] && t[|r|..] == s[b..];
    assert r == s[a..b];
    assert AllWhitespace(s[..a]) && AllWhitespace(s[b..]);
    r
  }

  /** Trimming a trimmed string changes nothing. */
  lemma TrimIdempotent(s: string)
    ensures Trim(Trim(s)) == Trim(s)
  {
    var r := Trim(s);
    if r != [] {
      assert TrimStart(r) == r;
      assert TrimEnd(r) == r;
    }
  }

  /** `pat` occurs in `s` starting at index `i`. */
  predicate OccursAt(s: string, pat: string, i: int) {
    0 <= i && i + |pat| <= |s| && s[i..i + |pat|] == pat
  }

  lemma OccursAtChar(s: string, pat: string, i: int, q: int)
    requires OccursAt(s, pat, i) && 0 <= q < |pat|
    ensures s[i + q] == pat[q]
  {
    assert s[i..i + |pat|][q] == s[i + q];
  }

  /** An occurrence inside a slice is an occurrence in the whole string, shifted by the slice's start. */
  lemma OccursInSlice(s: string, pat: string, j: int, k: int, p: int)
    requires 0 <= j <= k <= |s| && OccursAt(s[j..k], pat, p)
    ensures OccursAt(s, pat, j + p)
  {
    forall q | 0 <= q < |pat| ensures s[j + p..j + p + |pat|][q] == pat[q] {
      assert s[j..k][p..p + |pat|][q] == pat[q];
    }
  }

  /** A position whose character differs from the pattern's first is not an occurrence. */
  lemma NotOccursAt(s: string, pat: string, i: int)
    requires pat != [] && 0 <= i < |s| && s[i] != pat[0]
    ensures !OccursAt(s, pat, i)
  {
    if i + |pat| <= |s| {
      assert s[i..i + |pat|][0] == s[i];
    }
  }

  /** The first index at or after `from` where `pat` occurs, if any. */
  function IndexOf(s: string, pat: string, from: nat): (r: Option<nat>)
    ensures r.Some? ==> from <= r.value && OccursAt(s, pat, r.value)
    ensures r.Some? ==> forall i :: from <= i < r.value ==> !OccursAt(s, pat, i)
    ensures r.None? ==> forall i :: from <= i ==> !OccursAt(s, pat, i)
    decreases |s| - from
  {
    if from + |pat| > |s| then None
    else if s[from..from + |pat|] == pat then Some(from)
    else IndexOf(s, pat, from + 1)
  }

  /** The first occurrence is unique: an occurrence with none before it is what `IndexOf` finds. */
  lemma IndexOfFinds(s: string, pat: string, from: nat, k: int)
    requires from <= k && OccursAt(s, pat, k)
    requires forall i :: from <= i < k ==> !OccursAt(s, pat, i)
    ensures IndexOf(s, pat, from) == Some(k)
  {
  }

  /** A run of whitespace ended by a non-blank character (or the end) is what `SkipWhitespace` skips. */
  lemma SkipWhitespaceStops(s: string, from: nat, r: nat)
    requires from <= r <= |s|
    requires forall i :: from <= i < r ==> IsWhitespace(s[i])
    requires r < |s| ==> !IsWhitespace(s[r])
    ensures SkipWhitespace(s, from) == r
  {
  }

  predicate IsDigit(c: char) {
    '0' <= c <= '9'
  }

  function DigitChar(d: nat): (c: char)
    requires d < 10
    ensures IsDigit(c)
  {
    "0123456789"[d]
  }

  function DigitValue(c: char): nat
    requires IsDigit(c)
  {
    (c as int - '0' as int) as nat
  }

  /**
   * The decimal notation JavaScript gives the item numbers the export
   * prints (an array index plus one) in a template string. JavaScript
   * switches to exponent form from 10^21 on, far beyond any checklist.
   */
  function NatToDecimal(n: nat): (s: string)
    ensures |s| >= 1
    ensures forall i :: 0 <= i < |s| ==> IsDigit(s[i])
    ensures s[0] == '0' ==> n == 0
  {
    if n < 10 then [DigitChar(n)] else NatToDecimal(n / 10) + [DigitChar(n % 10)]
  }

  /** The value of a string of decimal digits. */
  function DecimalValue(s: string): nat
    requires forall i :: 0 <= i < |s| ==> IsDigit(s[i])
  {
    if s == [] then 0 else 10 * DecimalValue(s[..|s| - 1]) + DigitValue(s[|s| - 1])
  }

  /** Reading the decimal notation back gives the number. */
  lemma {:induction false} DecimalRoundTrip(n: nat)
    ensures DecimalValue(NatToDecimal(n)) == n
  {
    var s := NatToDecimal(n);
    if n >= 10 {
      DecimalRoundTrip(n / 10);
      assert s[..|s| - 1] == NatToDecimal(n / 10);
    }
  }

  /** `Array.prototype.join(sep)` on an array of strings. */
  function Join(xs: seq<string>, sep: string): string {
    if |xs| == 0 then ""
    else if |xs| == 1 then xs[0]
    else xs[0] + sep + Join(xs[1..], sep)
  }

  /** Joining one more element appends the separator and then the element. */
  lemma {:induction false} JoinAppend(xs: seq<string>, y: string, sep: string)
    requires xs != []
    ensures Join(xs + [y], sep) == Join(xs, sep) + sep + y
  {
    if |xs| > 1 {
      assert (xs + [y])[1..] == xs[1..] + [y];
      JoinAppend(xs[1..], y, sep);
    }
  }
}
