/** Small shared value types and the string operations the board relies on:
    JavaScript's `String.prototype.trim`, the handle pattern `^[a-zA-Z0-9_-]+$`
    and the decimal rendering of an integer id. A `char` here stands for one
    UTF-16 code unit, so `|s|` is JavaScript's `s.length`. */
module Wrappers {
  datatype Option<+T> = None | Some(value: T)
}

module Text {
  import opened Wrappers

  /** The characters JavaScript's `trim` removes: WhiteSpace (tab, vertical tab,
      form feed, space, no-break space, the byte order mark and every space
      separator: U+1680, U+2000 to U+200A, U+202F, U+205F, U+3000) and
      LineTerminator (LF, CR, line and paragraph separator). */
  const WHITESPACE: set<char> := {
    '\t', '\n', '\U{B}', '\U{C}', '\r', ' ', '\U{A0}', '\U{1680}',
    '\U{2000}', '\U{2001}', '\U{2002}', '\U{2003}', '\U{2004}', '\U{2005}',
    '\U{2006}', '\U{2007}', '\U{2008}', '\U{2009}', '\U{200A}',
    '\U{2028}', '\U{2029}', '\U{202F}', '\U{205F}', '\U{3000}', '\U{FEFF}'
  }

  predicate IsWhitespace(c: char) {
    c in WHITESPACE
  }

  predicate IsBlank(s: string) {
    forall i :: 0 <= i < |s| ==> IsWhitespace(s[i])
  }

  /** The index of the first character of `s` at or after `i` that is not
      whitespace, or `|s|` when there is none. */
  function TextStart(s: string, i: nat): (k: nat)
    requires i <= |s|
    ensures i <= k <= |s|
    ensures forall m :: i <= m < k ==> IsWhitespace(s[m])
    ensures k < |s| ==> !IsWhitespace(s[k])
    decreases |s| - i
  {
    if i < |s| && IsWhitespace(s[i]) then TextStart(s, i + 1) else i
  }

  /** The index just past the last character of `s` before `j` and at or
      after `lo` that is not whitespace, or `lo` when there is none. */
  function TextEnd(s: string, lo: nat, j: nat): (k: nat)
    requires lo <= j <= |s|
    ensures lo <= k <= j
    ensures forall m :: k <= m < j ==> IsWhitespace(s[m])
    ensures k > lo ==> !IsWhitespace(s[k - 1])
  {
    if j > lo && IsWhitespace(s[j - 1]) then TextEnd(s, lo, j - 1) else j
  }

  /** How many whitespace characters `trim` drops at the front of `s`. */
  function LeadingWhitespace(s: string): (k: nat)
    ensures k <= |s|
  {
    TextStart(s, 0)
  }

  /** JavaScript's `s.trim()`: whitespace removed at both ends. It is empty
      exactly when `s` is blank; `TrimIsInfix` says which infix of `s` it is. */
  function Trim(s: string): (r: string)
    ensures |r| <= |s|
    ensures r == [] <==> IsBlank(s)
  {
    var a := TextStart(s, 0);
    var b := TextEnd(s, a, |s|);
    TrimEmpty(s, a, b);
    s[a..b]
  }

  /** Nothing is left between the two ends exactly when `s` is blank. */
  lemma TrimEmpty(s: string, a: nat, b: nat)
    requires a == TextStart(s, 0) && b == TextEnd(s, a, |s|)
    ensures a == b <==> IsBlank(s)
  {
    if a == b {
      assert a == |s|;
    }
  }

  /** `trim` keeps the infix of `s` between its leading and its trailing
      whitespace, and that infix neither starts nor ends with whitespace. */
  lemma TrimIsInfix(s: string)
    ensures LeadingWhitespace(s) + |Trim(s)| <= |s|
    ensures Trim(s) == s[LeadingWhitespace(s)..LeadingWhitespace(s) + |Trim(s)|]
    ensures forall i :: 0 <= i < LeadingWhitespace(s) ==> IsWhitespace(s[i])
    ensures forall i :: LeadingWhitespace(s) + |Trim(s)| <= i < |s| ==> IsWhitespace(s[i])
    ensures Trim(s) != [] ==> !IsWhitespace(Trim(s)[0]) && !IsWhitespace(Trim(s)[|Trim(s)| - 1])
  {
    var a := TextStart(s, 0);
    var b := TextEnd(s, a, |s|);
    assert Trim(s) == s[a..b];
  }

  /** Text with no whitespace at either end is left as it is by `trim`. */
  lemma TrimUntouched(s: string)
    requires s != [] ==> !IsWhitespace(s[0]) && !IsWhitespace(s[|s| - 1])
    ensures Trim(s) == s
  {
    if s != [] {
      assert TextStart(s, 0) == 0;
      assert TextEnd(s, 0, |s|) == |s|;
    }
  }

  /** One character of the class `[a-zA-Z0-9_-]`. */
  predicate IsHandleChar(c: char) {
    ('a' <= c <= 'z') || ('A' <= c <= 'Z') || ('0' <= c <= '9') || c == '_' || c == '-'
  }

  /** The regular expression `^[a-zA-Z0-9_-]+$` matches the whole of `s`. */
  predicate MatchesHandlePattern(s: string) {
    |s| > 0 && forall i :: 0 <= i < |s| ==> IsHandleChar(s[i])
  }

  /** The decimal digit for `d`, from '0' to '9'. */
  function DigitChar(d: nat): (c: char)
    requires d < 10
    ensures '0' <= c <= '9' && c as int - '0' as int == d
  {
    ('0' as int + d) as char
  }

  /** `String(n)` for a natural number: its decimal digits, most significant
      first, without leading zeros. */
  function NatToDecimal(n: nat): (r: string)
    ensures r != [] && (r[0] == '0' <==> n == 0)
    ensures |r| == 1 <==> n < 10
    ensures forall i :: 0 <= i < |r| ==> '0' <= r[i] <= '9'
  {
    if n < 10 then [DigitChar(n)] else NatToDecimal(n / 10) + [DigitChar(n % 10)]
  }

  /** `String(n)` for an integer id, with a leading minus sign when negative. */
  function IntToDecimal(n: int): (r: string)
    ensures r != []
    ensures r[0] == '-' <==> n < 0
  {
    if n < 0 then "-" + NatToDecimal(-n) else NatToDecimal(n)
  }

  /** The number a string of decimal digits denotes, most significant digit
      first (Horner's rule). */
  function DecimalValue(s: string): nat
    requires forall i :: 0 <= i < |s| ==> '0' <= s[i] <= '9'
  {
    if s == [] then 0 else 10 * DecimalValue(s[..|s| - 1]) + (s[|s| - 1] as int - '0' as int)
  }

  /** The rendering of `n` denotes `n`. */
  lemma {:induction false} NatToDecimalValue(n: nat)
    ensures DecimalValue(NatToDecimal(n)) == n
  {
    if n >= 10 {
      var r := NatToDecimal(n);
      assert r[..|r| - 1] == NatToDecimal(n / 10);
      NatToDecimalValue(n / 10);
    }
  }

  /** The rendering of an integer is its sign, when negative, followed by the
      rendering of its magnitude, and those digits denote the magnitude. */
  lemma IntToDecimalValue(n: int)
    ensures n < 0 ==> IntToDecimal(n) == "-" + NatToDecimal(-n) && DecimalValue(NatToDecimal(-n)) == -n
    ensures n >= 0 ==> IntToDecimal(n) == NatToDecimal(n) && DecimalValue(NatToDecimal(n)) == n
  {
    NatToDecimalValue(if n < 0 then -n else n);
  }

  /** Decimal renderings of distinct naturals differ. */
  lemma NatToDecimalInjective(n: nat, m: nat)
    requires NatToDecimal(n) == NatToDecimal(m)
    ensures n == m
  {
    NatToDecimalValue(n);
    NatToDecimalValue(m);
  }

  /** Decimal renderings of distinct integers differ. */
  lemma IntToDecimalInjective(n: int, m: int)
    requires IntToDecimal(n) == IntToDecimal(m)
    ensures n == m
  {
    IntToDecimalValue(n);
    IntToDecimalValue(m);
    if n < 0 && m < 0 {
      assert NatToDecimal(-n) == IntToDecimal(n)[1..];
      assert NatToDecimal(-m) == IntToDecimal(m)[1..];
    }
  }

  /** `data?.error?.message || fallback`: the server's message when it is a
      non-empty string, otherwise the fallback. */
  function MessageOr(message: Option<string>, fallback: string): (m: string)
    ensures message.Some? && message.value != [] ==> m == message.value
    ensures message.None? || message.value == [] ==> m == fallback
  {
    if message.Some? && message.value != [] then message.value else fallback
  }
}
