/** Base-10 numerals as JavaScript reads and prints them: digit strings and
    their values, the rendering of (big) integers, powers of ten, and the
    truncating division and remainder of JavaScript's `bigint` operators. */
module Numerals {

  /** 10 raised to the power n. */
  function Pow10(n: nat): (p: nat)
    ensures p >= 1
  {
    if n == 0 then 1 else 10 * Pow10(n - 1)
  }

  lemma {:induction false} Pow10Add(a: nat, b: nat)
    ensures Pow10(a + b) == Pow10(a) * Pow10(b)
  {
    if a > 0 {
      Pow10Add(a - 1, b);
      calc {
        Pow10(a + b);
        10 * Pow10(a - 1 + b);
        10 * (Pow10(a - 1) * Pow10(b));
        (10 * Pow10(a - 1)) * Pow10(b);
        Pow10(a) * Pow10(b);
      }
    }
  }

  lemma {:induction false} Pow10Monotone(a: nat, b: nat)
    requires a <= b
    ensures Pow10(a) <= Pow10(b)
  {
    if a < b {
      Pow10Monotone(a, b - 1);
    }
  }

  predicate IsDigit(c: char) {
    '0' <= c <= '9'
  }

  predicate AllDigits(s: string) {
    forall i :: 0 <= i < |s| ==> IsDigit(s[i])
  }

  function DigitValue(c: char): (d: nat)
    requires IsDigit(c)
    ensures d < 10
  {
    c as int - '0' as int
  }

  function DigitChar(d: nat): (c: char)
    requires d < 10
    ensures IsDigit(c) && DigitValue(c) == d
  {
    ('0' as int + d) as char
  }

  /** The value of a digit string read as a base-10 numeral, leading zeros
      allowed (the reading of both `Number(...)` and `BigInt(...)` on such a
      string). The numeral is read from its last digit back. */
  function ValueOf(s: string): (v: nat)
    requires AllDigits(s)
    ensures v < Pow10(|s|)
  {
    if s == [] then 0 else 10 * ValueOf(s[..|s| - 1]) + DigitValue(s[|s| - 1])
  }

  /** The numeral of n without leading zeros, as a template string prints a
      non-negative number or bigint. */
  function Render(n: nat): (r: string)
    ensures |r| >= 1 && AllDigits(r)
    ensures ValueOf(r) == n
    ensures r[0] == '0' <==> n == 0
  {
    if n < 10 then [DigitChar(n)]
    else
      var front := Render(n / 10);
      var r := front + [DigitChar(n % 10)];
      assert r[..|r| - 1] == front;
      r
  }

  /** Reading a numeral whose first digit is not zero gives at least 10^(length - 1). */
  lemma {:induction false} LeadingDigitBound(d: string)
    requires |d| >= 1 && AllDigits(d) && d[0] != '0'
    ensures ValueOf(d) >= Pow10(|d| - 1)
  {
    if |d| > 1 {
      LeadingDigitBound(d[..|d| - 1]);
    }
  }

  /** Printing the value of a numeral without leading zeros gives the numeral back. */
  lemma {:induction false} RenderValueOf(d: string)
    requires |d| >= 1 && AllDigits(d) && d[0] != '0'
    ensures Render(ValueOf(d)) == d
  {
    if |d| > 1 {
      var front := d[..|d| - 1];
      LeadingDigitBound(front);
      RenderValueOf(front);
      assert ValueOf(d) / 10 == ValueOf(front);
      assert ValueOf(d) % 10 == DigitValue(d[|d| - 1]);
      assert d == front + [d[|d| - 1]];
    }
  }

  /** A number below 10^k (k >= 1) prints in at most k digits. */
  lemma {:induction false} RenderLength(n: nat, k: nat)
    requires k >= 1 && n < Pow10(k)
    ensures |Render(n)| <= k
  {
    if n >= 10 {
      RenderLength(n / 10, k - 1);
    }
  }

  /** A number at least 10^k prints in more than k digits. */
  lemma {:induction false} RenderLengthBelow(n: nat, k: nat)
    requires n >= Pow10(k)
    ensures |Render(n)| > k
  {
    if k > 0 {
      RenderLengthBelow(n / 10, k - 1);
    }
  }

  /** Reading a concatenation of two numerals: the digits of the first are
      shifted by the length of the second. */
  lemma {:induction false} ValueOfConcat(a: string, b: string)
    requires AllDigits(a) && AllDigits(b)
    ensures ValueOf(a + b) == ValueOf(a) * Pow10(|b|) + ValueOf(b)
  {
    if b == [] {
      assert a + b == a;
    } else {
      var front, last := b[..|b| - 1], b[|b| - 1];
      var ab := a + b;
      assert ab[..|ab| - 1] == a + front && ab[|ab| - 1] == last;
      ValueOfConcat(a, front);
      ShiftDigit(ValueOf(ab), ValueOf(a + front), ValueOf(a), Pow10(|front|),
                 ValueOf(front), DigitValue(last), Pow10(|b|), ValueOf(b));
    }
  }

  /** One step of ValueOfConcat, on the numbers alone. */
  lemma ShiftDigit(whole: int, shorter: int, x: int, p: int, f: int, d: int, pb: int, vb: int)
    requires whole == 10 * shorter + d && shorter == x * p + f
    requires vb == 10 * f + d && pb == 10 * p
    ensures whole == x * pb + vb
  {
  }

  /** The value of a two-digit numeral, digit by digit. */
  lemma ValueOfTwo(s: string)
    requires |s| == 2 && AllDigits(s)
    ensures ValueOf(s) == 10 * DigitValue(s[0]) + DigitValue(s[1])
  {
    assert s[..1][..0] == [];
  }

  /** The value of a three-digit numeral, digit by digit. */
  lemma ValueOfThree(s: string)
    requires |s| == 3 && AllDigits(s)
    ensures ValueOf(s) == 100 * DigitValue(s[0]) + 10 * DigitValue(s[1]) + DigitValue(s[2])
  {
    ValueOfTwo(s[..2]);
  }

  /** A string of zero digits reads as 0. */
  lemma {:induction false} ValueOfZeros(z: string)
    requires forall i :: 0 <= i < |z| ==> z[i] == '0'
    ensures AllDigits(z) && ValueOf(z) == 0
  {
    if z != [] {
      ValueOfZeros(z[..|z| - 1]);
    }
  }

  /** Appending zero digits multiplies the value by 10 per digit appended. */
  lemma ValueOfTrailingZeros(a: string, z: string)
    requires AllDigits(a)
    requires forall i :: 0 <= i < |z| ==> z[i] == '0'
    ensures AllDigits(a + z)
    ensures ValueOf(a + z) == ValueOf(a) * Pow10(|z|)
  {
    ValueOfZeros(z);
    ValueOfConcat(a, z);
  }

  /** A digit string holds no point. */
  lemma DigitsHaveNoPoint(s: string)
    requires AllDigits(s)
    ensures '.' !in s
  {
    forall i | 0 <= i < |s|
      ensures s[i] != '.'
    {
      assert IsDigit(s[i]);
    }
  }

  /** The text of a possibly signed integer: digits, optionally after one '-'. */
  predicate IsIntText(s: string) {
    AllDigits(s) || (|s| >= 1 && s[0] == '-' && AllDigits(s[1..]))
  }

  /** Reads a possibly signed integer text. */
  function ReadInt(s: string): int
    requires IsIntText(s)
  {
    if |s| >= 1 && s[0] == '-' then 0 - ValueOf(s[1..]) as int else ValueOf(s)
  }

  /** The numeral of a bigint as a template string prints it: '-' and the
      digits of the magnitude when negative. */
  function RenderInt(i: int): (r: string)
    ensures IsIntText(r) && ReadInt(r) == i
    ensures '.' !in r
    ensures i >= 0 ==> AllDigits(r)
  {
    if i < 0 then
      var r := "-" + Render(-i);
      assert r[1..] == Render(-i);
      r
    else Render(i)
  }

  /** Quotient of bigint `a / b` for b > 0: truncated toward zero, not floored. */
  function TDiv(a: int, b: int): (q: int)
    requires b > 0
    ensures a >= 0 ==> q >= 0
    ensures a < 0 ==> q <= 0
  {
    if a >= 0 then a / b else -((-a) / b)
  }

  /** Remainder of bigint `a % b` for b > 0: it takes the sign of a. */
  function TMod(a: int, b: int): (r: int)
    requires b > 0
    ensures -b < r < b
    ensures a >= 0 ==> r >= 0
    ensures a < 0 ==> r <= 0
  {
    if a >= 0 then a % b else -((-a) % b)
  }

  /** Truncating division and remainder recombine to the dividend, and the
      quotient times the divisor never overshoots it (in absolute value). */
  lemma DivMod(a: int, b: int)
    requires b > 0
    ensures a == b * TDiv(a, b) + TMod(a, b)
    ensures a >= 0 ==> 0 <= b * TDiv(a, b) <= a
    ensures a < 0 ==> a <= b * TDiv(a, b) <= 0
  {
    if a < 0 {
      var n := -a;
      assert n == b * (n / b) + n % b;
      assert b * -(n / b) == -(b * (n / b));
    }
  }
}
