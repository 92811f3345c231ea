/**
 * The few JavaScript built-ins the contact-cadence logic leans on, stated
 * exactly: optional values, numbers (with NaN and the infinities),
 * loosely-typed fields, Math.round, the decimal rendering of an integer in
 * a template string, and String.prototype.trim.
 */
module Js {

  datatype Option<+T> = None | Some(value: T)

  /** A JavaScript number. Finite values are kept as exact reals. */
  datatype JsNumber = Finite(value: real) | NaN | PosInf | NegInf

  /** A field whose run-time type is only checked with `typeof`:
      null/undefined, a number or a string. */
  datatype JsValue = Null | Number(num: JsNumber) | Str(text: string)

  function Max(a: int, b: int): int { if a < b then b else a }

  function Min(a: int, b: int): int { if a < b then a else b }

  function Abs(n: int): nat { if n < 0 then -n else n }

  /** Math.round: the nearest integer, halves rounded towards +infinity. */
  function Round(x: real): (r: int)
    ensures r as real - 0.5 <= x < r as real + 0.5
  {
    (x + 0.5).Floor
  }

  /** Math.round(a / b) for a positive divisor. */
  function RoundDiv(a: int, b: int): (q: int)
    requires b > 0
    ensures 2 * q * b <= 2 * a + b < 2 * q * b + 2 * b
  {
    var q := (2 * a + b) / (2 * b);
    assert 2 * b * q <= 2 * a + b < 2 * b * q + 2 * b by {
      DivBounds(2 * a + b, 2 * b);
    }
    q
  }

  lemma DivBounds(n: int, d: int)
    requires d > 0
    ensures d * (n / d) <= n < d * (n / d) + d
  {
  }

  /** Dividing an exact multiple rounds to the exact quotient. */
  lemma RoundDivExact(k: int, b: int)
    requires b > 0
    ensures RoundDiv(k * b, b) == k
  {
    var q := RoundDiv(k * b, b);
    MultipleBounds(q - k, 2 * b);
    assert (q - k) * (2 * b) == 2 * q * b - 2 * k * b;
  }

  /** A non-zero multiple of a positive c is at least c away from zero. */
  lemma MultipleBounds(e: int, c: int)
    requires c > 0
    ensures e >= 1 ==> e * c >= c
    ensures e <= -1 ==> e * c <= -c
  {
    if e >= 1 {
      MulMono(1, e, c);
    } else if e <= -1 {
      MulMono(e, -1, c);
    }
  }

  /** Math.round(a / b) has the sign of a, or is zero. */
  lemma RoundDivSign(a: int, b: int)
    requires b > 0
    ensures a <= 0 ==> RoundDiv(a, b) <= 0
    ensures a >= 0 ==> RoundDiv(a, b) >= 0
  {
    var q := RoundDiv(a, b);
    MultipleBounds(q, 2 * b);
    assert q * (2 * b) == 2 * q * b;
  }

  lemma MulMono(x: int, y: int, c: int)
    requires x <= y && c >= 0
    ensures x * c <= y * c
  {
  }

  /** Math.round(a / b) is non-decreasing in a. */
  lemma RoundDivMonotone(a1: int, a2: int, b: int)
    requires b > 0 && a1 <= a2
    ensures RoundDiv(a1, b) <= RoundDiv(a2, b)
  {
    var q1, q2 := RoundDiv(a1, b), RoundDiv(a2, b);
    MultipleBounds(q1 - q2, 2 * b);
    assert (q1 - q2) * (2 * b) == 2 * q1 * b - 2 * q2 * b;
  }

  // ---------------------------------------------------------------------
  // Decimal rendering of integers, as `${n}` produces it

  predicate IsDigit(c: char) { '0' <= c <= '9' }

  predicate AllDigits(s: string) { forall k :: 0 <= k < |s| ==> IsDigit(s[k]) }

  function DigitChar(d: nat): (c: char)
    requires d < 10
    ensures IsDigit(c) && (c as int) - ('0' as int) == d
  {
    (('0' as int) + d) as char
  }

  /** The value a string of decimal digits denotes (the partner of NatToString). */
  function DecimalValue(s: string): nat
    requires AllDigits(s)
  {
    if s == [] then 0
    else 10 * DecimalValue(s[..|s| - 1]) + ((s[|s| - 1] as int) - ('0' as int))
  }

  /** The decimal text of a non-negative integer: no sign, no leading zero. */
  function NatToString(n: nat): (r: string)
    ensures |r| >= 1 && AllDigits(r)
    ensures DecimalValue(r) == n
    ensures r[0] == '0' ==> n == 0
    ensures n == 0 ==> r == "0"
  {
    if n < 10 then [DigitChar(n)]
    else
      var init := NatToString(n / 10);
      var r := init + [DigitChar(n % 10)];
      assert r[..|r| - 1] == init;
      r
  }

  /** The decimal text of any integer, with a leading '-' when negative. */
  function IntToString(n: int): (r: string)
    ensures |r| >= 1
    ensures n >= 0 <==> IsDigit(r[0])
    ensures n >= 0 ==> AllDigits(r) && DecimalValue(r) == n && (r[0] == '0' ==> n == 0)
    ensures n == 0 ==> r == "0"
    ensures n < 0 ==> r[0] == '-' && |r| >= 2 && AllDigits(r[1..]) && DecimalValue(r[1..]) == -n && r[1] != '0'
  {
    if n >= 0 then NatToString(n) else "-" + NatToString(-n)
  }

  /** Different integers have different texts. */
  lemma IntToStringInjective(a: int, b: int)
    requires IntToString(a) == IntToString(b)
    ensures a == b
  {
  }

  lemma NatToStringInjective(a: nat, b: nat)
    requires NatToString(a) == NatToString(b)
    ensures a == b
  {
  }

  /** The length of the longest run of digits at the front of a string. */
  function LeadingDigits(w: string): nat
  {
    if w == [] || !IsDigit(w[0]) then 0 else 1 + LeadingDigits(w[1..])
  }

  lemma {:induction false} LeadingDigitsOfNumeral(s: string, x: string)
    requires AllDigits(s)
    requires x == [] || !IsDigit(x[0])
    ensures LeadingDigits(s + x) == |s|
  {
    if s != [] {
      assert (s + x)[1..] == s[1..] + x;
      LeadingDigitsOfNumeral(s[1..], x);
    } else {
      assert s + x == x;
    }
  }

  /** A decimal numeral followed by text that does not start with a digit
      can be split in only one way: the numeral is read back exactly. */
  lemma NumeralPrefixUnique(a: nat, b: nat, x: string, y: string)
    requires x == [] || !IsDigit(x[0])
    requires y == [] || !IsDigit(y[0])
    requires NatToString(a) + x == NatToString(b) + y
    ensures a == b && x == y
  {
    var sa, sb := NatToString(a), NatToString(b);
    LeadingDigitsOfNumeral(sa, x);
    LeadingDigitsOfNumeral(sb, y);
    assert sa == (sa + x)[..|sa|] == (sb + y)[..|sb|] == sb;
    NatToStringInjective(a, b);
    assert x == (sa + x)[|sa|..] == (sb + y)[|sb|..] == y;
  }

  /** s ends with the text suffix. */
  predicate EndsWith(s: string, suffix: string) {
    |suffix| <= |s| && s[|s| - |suffix|..] == suffix
  }

  /** A common prefix cancels. */
  lemma PrefixCancel(p: string, x: string, y: string)
    requires p + x == p + y
    ensures x == y
  {
    assert x == (p + x)[|p|..];
  }

  // ---------------------------------------------------------------------
  // String.prototype.trim

  /** The characters trim removes: ECMAScript WhiteSpace and LineTerminator. */
  predicate IsWhitespace(c: char) {
    || ('\U{0009}' <= c <= '\U{000D}') || c == '\U{0020}' || c == '\U{00A0}'
    || c == '\U{1680}' || ('\U{2000}' <= c <= '\U{200A}')
    || c == '\U{2028}' || c == '\U{2029}' || c == '\U{202F}' || c == '\U{205F}'
    || c == '\U{3000}' || c == '\U{FEFF}'
  }

  predicate AllWhitespace(s: string) { forall k :: 0 <= k < |s| ==> IsWhitespace(s[k]) }

  /** The number of whitespace characters at the front of s. */
  function LeadingBlanks(s: string): (n: nat)
    ensures n <= |s|
    ensures forall k :: 0 <= k < n ==> IsWhitespace(s[k])
    ensures n < |s| ==> !IsWhitespace(s[n])
  {
    if s == [] || !IsWhitespace(s[0]) then 0
    else 1 + LeadingBlanks(s[1..])
  }

  /** The end of s[lo..hi] once the whitespace at its back is dropped. */
  function TrimmedEnd(s: string, lo: nat, hi: nat): (m: nat)
    requires lo <= hi <= |s|
    ensures lo <= m <= hi
    ensures forall k :: m <= k < hi ==> IsWhitespace(s[k])
    ensures m > lo ==> !IsWhitespace(s[m - 1])
    decreases hi
  {
    if hi == lo || !IsWhitespace(s[hi - 1]) then hi
    else TrimmedEnd(s, lo, hi - 1)
  }

  /** String.prototype.trim: the text with the whitespace at both ends removed. */
  function Trim(s: string): (r: string)
    ensures exists i, j :: 0 <= i <= j <= |s| && r == s[i..j] && AllWhitespace(s[..i]) && AllWhitespace(s[j..])
    ensures r == [] || (!IsWhitespace(r[0]) && !IsWhitespace(r[|r| - 1]))
    ensures r == [] <==> AllWhitespace(s)
  {
    var lo := LeadingBlanks(s);
    var hi := TrimmedEnd(s, lo, |s|);
    assert AllWhitespace(s[..lo]) && AllWhitespace(s[hi..]);
    s[lo..hi]
  }

  /** Text with no whitespace at its ends is its own trim. */
  lemma TrimOfTrimmed(s: string)
    requires s == [] || (!IsWhitespace(s[0]) && !IsWhitespace(s[|s| - 1]))
    ensures Trim(s) == s
  {
    if s != [] {
      assert LeadingBlanks(s) == 0;
      assert s[0..|s|] == s;
    }
  }

  /** Trimming twice is trimming once. */
  lemma TrimIdempotent(s: string)
    ensures Trim(Trim(s)) == Trim(s)
  {
    TrimOfTrimmed(Trim(s));
  }
}
