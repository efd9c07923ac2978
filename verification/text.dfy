/**
 * The string operations the survey schema relies on: Python's `str.strip()`,
 * the decimal rendering `str(n)` of an integer, and the two-digit zero-padded
 * rendering that `strftime` uses for month, day and hour.
 */
module Text {

  /** Python's `str.isspace()` on one character: TAB through CR, the
      separators FS through US, SPACE, NEL, NO-BREAK SPACE and the Unicode
      space, line and paragraph separators. */
  predicate IsWhitespace(c: char) {
    var n := c as int;
    || 0x09 <= n <= 0x0D
    || 0x1C <= n <= 0x20
    || n == 0x85 || n == 0xA0 || n == 0x1680
    || 0x2000 <= n <= 0x200A
    || n == 0x2028 || n == 0x2029 || n == 0x202F || n == 0x205F || n == 0x3000
  }

  predicate AllWhitespace(s: string) {
    forall i :: 0 <= i < |s| ==> IsWhitespace(s[i])
  }

  /** Neither the first nor the last character is whitespace. */
  predicate NoEdgeWhitespace(s: string) {
    s == [] || (!IsWhitespace(s[0]) && !IsWhitespace(s[|s| - 1]))
  }

  /** `r` is the slice of `s` starting at `i`, and everything of `s` around it is whitespace. */
  ghost predicate TrimOf(s: string, i: nat, r: string) {
    && i + |r| <= |s|
    && r == s[i..i + |r|]
    && AllWhitespace(s[..i])
    && AllWhitespace(s[i + |r|..])
  }

  /** Drops the whitespace at the front of `s`. */
  function StripLeading(s: string): (r: string)
    ensures |r| <= |s| && r == s[|s| - |r|..]
    ensures AllWhitespace(s[..|s| - |r|])
    ensures r == [] || !IsWhitespace(r[0])
    decreases |s|
  {
    if s != [] && IsWhitespace(s[0]) then
      var r := StripLeading(s[1..]);
      assert s[..|s| - |r|] == [s[0]] + s[1..][..|s[1..]| - |r|];
      r
    else
      s
  }

  /** Drops the whitespace at the end of `s`. */
  function StripTrailing(s: string): (r: string)
    ensures |r| <= |s| && r == s[..|r|]
    ensures AllWhitespace(s[|r|..])
    ensures r == [] || !IsWhitespace(r[|r| - 1])
    decreases |s|
  {
    if s != [] && IsWhitespace(s[|s| - 1]) then
      var r := StripTrailing(s[..|s| - 1]);
      assert s[|r|..] == s[..|s| - 1][|r|..] + [s[|s| - 1]];
      r
    else
      s
  }

  /** Python's `s.strip()`: the contiguous middle of `s` left once the
      surrounding whitespace is removed. */
  function Strip(s: string): (r: string)
    ensures |r| <= |s|
    ensures NoEdgeWhitespace(r)
    ensures exists i :: TrimOf(s, i, r)
  {
    var t := StripLeading(s);
    var r := StripTrailing(t);
    assert TrimOf(s, |s| - |t|, r) by {
      var i := |s| - |t|;
      assert s[i + |r|..] == t[|r|..];
    }
    r
  }

  /** A non-whitespace character of `s` lies at or after the whitespace prefix `s[..a]`. */
  lemma NotInside(s: string, a: nat, k: int)
    requires a <= |s|
    ensures 0 <= k < |s| && AllWhitespace(s[..a]) && !IsWhitespace(s[k]) ==> a <= k
  {
    if 0 <= k < a {
      assert s[..a][k] == s[k];
    }
  }

  /** A non-whitespace character of `s` lies before the whitespace suffix `s[b..]`. */
  lemma NotBefore(s: string, b: nat, k: int)
    requires b <= |s|
    ensures 0 <= k < |s| && AllWhitespace(s[b..]) && !IsWhitespace(s[k]) ==> k < b
  {
    if b <= k < |s| {
      assert s[b..][k - b] == s[k];
    }
  }

  /** The first and last characters of a non-empty trim are not whitespace. */
  lemma EdgeChars(s: string, i: nat, r: string)
    requires TrimOf(s, i, r) && NoEdgeWhitespace(r)
    ensures r != [] ==> !IsWhitespace(s[i]) && !IsWhitespace(s[i + |r| - 1])
  {
    if r != [] {
      assert s[i] == r[0] && s[i + |r| - 1] == r[|r| - 1];
    }
  }

  /** Two trims of `s` without edge whitespace are the same string. */
  lemma TrimsAgree(s: string, i: nat, r: string, i0: nat, r0: string)
    requires TrimOf(s, i, r) && NoEdgeWhitespace(r)
    requires TrimOf(s, i0, r0) && NoEdgeWhitespace(r0)
    ensures r == r0
  {
    EdgeChars(s, i, r);
    EdgeChars(s, i0, r0);
    NotInside(s, i0, i);
    NotInside(s, i, i0);
    NotBefore(s, i0 + |r0|, i);
    NotBefore(s, i + |r|, i0);
    NotBefore(s, i0 + |r0|, i + |r| - 1);
    NotBefore(s, i + |r|, i0 + |r0| - 1);
  }

  /** The properties of `Strip` determine it: any slice of `s` with only
      whitespace around it and none at its edges is `Strip(s)`. */
  lemma StripUnique(s: string, i: nat, r: string)
    requires TrimOf(s, i, r) && NoEdgeWhitespace(r)
    ensures r == Strip(s)
  {
    var r0 := Strip(s);
    var i0 :| TrimOf(s, i0, r0);
    TrimsAgree(s, i, r, i0, r0);
  }

  /** A string with no whitespace at its edges is left as it is. */
  lemma StripFixedPoint(s: string)
    requires NoEdgeWhitespace(s)
    ensures Strip(s) == s
  {
    assert s[0..|s|] == s;
    assert TrimOf(s, 0, s);
    StripUnique(s, 0, s);
  }

  /** Stripping twice is stripping once. */
  lemma StripIdempotent(s: string)
    ensures Strip(Strip(s)) == Strip(s)
  {
    StripFixedPoint(Strip(s));
  }

  predicate IsDigit(c: char) {
    '0' <= c <= '9'
  }

  predicate AllDigits(s: string) {
    forall i :: 0 <= i < |s| ==> IsDigit(s[i])
  }

  function DigitChar(d: nat): (c: char)
    requires d < 10
    ensures IsDigit(c) && c as int - '0' as int == d
  {
    ('0' as int + d) as char
  }

  function DigitValue(c: char): nat
    requires IsDigit(c)
  {
    c as int - '0' as int
  }

  /** The number a string of decimal digits denotes (most significant digit first). */
  function DecimalValue(s: string): nat
    requires AllDigits(s)
    decreases |s|
  {
    if s == [] then 0 else 10 * DecimalValue(s[..|s| - 1]) + DigitValue(s[|s| - 1])
  }

  /** Python's `str(n)` for a non-negative integer: at least one digit and no leading zero. */
  function Decimal(n: nat): (r: string)
    ensures |r| >= 1 && AllDigits(r)
    ensures r[0] == '0' ==> n == 0
    decreases n
  {
    if n < 10 then [DigitChar(n)] else Decimal(n / 10) + [DigitChar(n % 10)]
  }

  /** Reading back the decimal rendering of `n` gives `n`. */
  lemma {:induction false} DecimalRoundTrip(n: nat)
    ensures DecimalValue(Decimal(n)) == n
  {
    if n >= 10 {
      var r := Decimal(n);
      assert r[..|r| - 1] == Decimal(n / 10);
      DecimalRoundTrip(n / 10);
    }
  }

  function Pow10(k: nat): (p: nat)
    ensures p >= 1
  {
    if k == 0 then 1 else 10 * Pow10(k - 1)
  }

  /** A number with exactly `k` digits renders as `k` characters. */
  lemma {:induction false} DecimalLength(n: nat, k: nat)
    requires k >= 1 && Pow10(k - 1) <= n < Pow10(k)
    ensures |Decimal(n)| == k
  {
    if k > 1 {
      DecimalLength(n / 10, k - 1);
    }
  }

  /** Python's `str(i)` for any integer: a minus sign before the digits of a negative number. */
  function IntToString(i: int): (r: string)
    ensures |r| >= 1
    ensures i >= 0 ==> AllDigits(r) && DecimalValue(r) == i && (r[0] == '0' ==> i == 0)
    ensures i < 0 ==> |r| >= 2 && r[0] == '-' && AllDigits(r[1..]) && DecimalValue(r[1..]) == -i
  {
    if i < 0 then
      DecimalRoundTrip(-i);
      assert ("-" + Decimal(-i))[1..] == Decimal(-i);
      "-" + Decimal(-i)
    else
      DecimalRoundTrip(i);
      Decimal(i)
  }

  /** The `%02d` rendering `strftime` uses for `%m`, `%d` and `%H`: exactly
      two digits, zero-padded, that read back as `n`. */
  function Pad2(n: nat): (r: string)
    requires n < 100
    ensures |r| == 2 && AllDigits(r) && DecimalValue(r) == n
  {
    var r := [DigitChar(n / 10), DigitChar(n % 10)];
    assert r[..1] == [r[0]] && r[..1][..0] == [];
    assert DecimalValue(r[..1]) == n / 10;
    r
  }
}
