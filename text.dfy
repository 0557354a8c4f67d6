/** The few Python string operations the lending core relies on:
    `str.strip()` (return notes), `str.upper()` (bundle codes) and `str(int)`
    (plan-duration labels). */
module Text {

  /** The characters Python's `str.isspace()` accepts, which is what
      `str.strip()` with no argument removes from both ends. */
  predicate IsSpace(c: char)
  {
    ('\t' <= c <= '\r')
    || ('\U{1C}' <= c <= ' ')  // U+001C..U+001F and the space
    || c == '\U{85}' || c == '\U{A0}' || c == '\U{1680}'
    || ('\U{2000}' <= c <= '\U{200A}')
    || c == '\U{2028}' || c == '\U{2029}' || c == '\U{202F}' || c == '\U{205F}' || c == '\U{3000}'
  }

  predicate HasNonSpace(s: string)
  {
    exists i | 0 <= i < |s| :: !IsSpace(s[i])
  }

  /** `s.lstrip()`: the longest suffix of `s` that does not start with whitespace. */
  function LStrip(s: string): (r: string)
    ensures |r| <= |s| && r == s[|s| - |r|..]
    ensures r == [] || !IsSpace(r[0])
    ensures forall i | 0 <= i < |s| - |r| :: IsSpace(s[i])
  {
    if s == [] || !IsSpace(s[0]) then s else LStrip(s[1..])
  }

  /** `s.rstrip()`: the longest prefix of `s` that does not end with whitespace. */
  function RStrip(s: string): (r: string)
    ensures |r| <= |s| && r == s[..|r|]
    ensures r == [] || !IsSpace(r[|r| - 1])
    ensures forall i | |r| <= i < |s| :: IsSpace(s[i])
  {
    if s == [] || !IsSpace(s[|s| - 1]) then s else RStrip(s[..|s| - 1])
  }

  /** `s.strip()`. */
  function Strip(s: string): string
  {
    RStrip(LStrip(s))
  }

  /** Leading whitespace stops at the first non-space character, so text
      appended after such a character is never stripped from the left. */
  lemma {:induction false} LStripAppend(a: string, b: string)
    requires HasNonSpace(a)
    ensures LStrip(a + b) == LStrip(a) + b
  {
    if IsSpace(a[0]) {
      var i :| 0 <= i < |a| && !IsSpace(a[i]);
      assert i > 0 && a[1..][i - 1] == a[i];
      assert (a + b)[1..] == a[1..] + b;
      LStripAppend(a[1..], b);
    }
  }

  /** Trailing whitespace stops at the last non-space character, so text
      before such a character is never stripped from the right. */
  lemma {:induction false} RStripPrepend(a: string, b: string)
    requires |a| > 0 && !IsSpace(a[|a| - 1])
    ensures RStrip(a + b) == a + RStrip(b)
  {
    if b == [] {
      assert a + b == a;
    } else if IsSpace(b[|b| - 1]) {
      assert (a + b)[..|a + b| - 1] == a + b[..|b| - 1];
      RStripPrepend(a, b[..|b| - 1]);
    }
  }

  /** Stripping `a + b` where `a` ends in a non-space character strips only
      the front of `a` and the back of `b`. */
  lemma StripJoin(a: string, b: string)
    requires |a| > 0 && !IsSpace(a[|a| - 1])
    ensures Strip(a + b) == LStrip(a) + RStrip(b)
  {
    LStripAppend(a, b);
    var l := LStrip(a);
    assert |l| > 0 && l[|l| - 1] == a[|a| - 1];
    RStripPrepend(l, b);
  }

  predicate IsAsciiDigit(c: char)
  {
    '0' <= c <= '9'
  }

  predicate IsAsciiLower(c: char)
  {
    'a' <= c <= 'z'
  }

  function UpperChar(c: char): char
  {
    if IsAsciiLower(c) then (c as int - 32) as char else c
  }

  /** `s.upper()` on ASCII letters; every other character is kept. */
  function Upper(s: string): (r: string)
    ensures |r| == |s|
    ensures forall i | 0 <= i < |s| :: r[i] == UpperChar(s[i])
  {
    if s == [] then [] else [UpperChar(s[0])] + Upper(s[1..])
  }

  /** The result of `upper()` has no lower-case letter left, and upper-casing
      it again changes nothing. */
  lemma UpperIdempotent(s: string)
    ensures forall i | 0 <= i < |Upper(s)| :: !IsAsciiLower(Upper(s)[i])
    ensures Upper(Upper(s)) == Upper(s)
  {
  }

  function DigitChar(d: nat): (c: char)
    requires d < 10
    ensures IsAsciiDigit(c)
  {
    ('0' as int + d) as char
  }

  function DigitValue(c: char): (d: nat)
    requires IsAsciiDigit(c)
    ensures d < 10 && DigitChar(d) == c
  {
    c as int - '0' as int
  }

  /** `str(n)` for a non-negative integer: decimal digits, no leading zero. */
  function Decimal(n: nat): (r: string)
    ensures |r| >= 1
    ensures forall i | 0 <= i < |r| :: IsAsciiDigit(r[i])
    ensures r[0] == '0' ==> n == 0
    decreases n
  {
    if n < 10 then [DigitChar(n)] else Decimal(n / 10) + [DigitChar(n % 10)]
  }

  /** The value of a string of decimal digits (the empty string reads as 0). */
  function ParseDecimal(s: string): nat
    requires forall i | 0 <= i < |s| :: IsAsciiDigit(s[i])
  {
    if s == [] then 0 else ParseDecimal(s[..|s| - 1]) * 10 + DigitValue(s[|s| - 1])
  }

  /** `str(n)` loses nothing: reading its digits back gives `n`. */
  lemma {:induction false} DecimalRoundTrip(n: nat)
    ensures ParseDecimal(Decimal(n)) == n
    decreases n
  {
    if n >= 10 {
      var p := Decimal(n / 10);
      var d := DigitChar(n % 10);
      assert Decimal(n) == p + [d];
      assert (p + [d])[..|p|] == p;
      DecimalRoundTrip(n / 10);
    }
  }
}
