/** Helpers shared by the streaming, browser and log models: bytes, an Option
    type, C++ integer division, and the QString operations the core relies on
    (indexOf, left, mid, number, toInt/toLongLong, toLatin1). */
module Common {

  type byte = x: int | 0 <= x < 256

  datatype Option<T> = None | Some(value: T)

  const INT32_MIN: int := -0x8000_0000
  const INT32_MAX: int := 0x7fff_ffff
  const INT64_MIN: int := -0x8000_0000_0000_0000
  const INT64_MAX: int := 0x7fff_ffff_ffff_ffff

  function Min(a: int, b: int): int { if a <= b then a else b }
  function Max(a: int, b: int): int { if a >= b then a else b }

  /** C++ integer division, which truncates toward zero. */
  function TDiv(a: int, b: int): (q: int)
    requires b > 0
    ensures a >= 0 ==> q == a / b
    ensures a < 0 ==> q == -((-a) / b)
  {
    if a >= 0 then a / b else -((-a) / b)
  }

  /** A value narrowed to a 32-bit `int` (a `static_cast<int>`, or an `int`
      product that overflows): two's complement wrap-around. */
  function Narrow32(x: int): (r: int)
    ensures INT32_MIN <= r <= INT32_MAX
    ensures INT32_MIN <= x <= INT32_MAX ==> r == x
  {
    (x - INT32_MIN) % 0x1_0000_0000 + INT32_MIN
  }

  /** C++ remainder: it takes the sign of the dividend. */
  function TMod(a: int, b: int): (r: int)
    requires b > 0
    ensures TDiv(a, b) * b + r == a
    ensures a >= 0 ==> r == a % b && 0 <= r < b
    ensures a < 0 ==> -b < r <= 0
  {
    if a >= 0 then a % b else -((-a) % b)
  }

  /** Integer ceiling of a / b for a positive divisor; the source computes it
      with std::ceil on a double, which is exact at the magnitudes involved. */
  function CeilDiv(a: nat, b: nat): (q: nat)
    requires b > 0
    ensures q * b >= a
    ensures q == 0 || (q - 1) * b < a
  {
    (a + b - 1) / b
  }

  /** The quotient of a non-negative number brackets it between two
      consecutive multiples of the divisor. */
  lemma DivBounds(a: int, b: int)
    requires a >= 0 && b > 0
    ensures (a / b) * b <= a < (a / b) * b + b
    ensures a % b == a - (a / b) * b
  {
  }

  /** The quotient of a non-negative number by a positive one is not
      negative. */
  lemma DivNonNegative(a: int, b: int)
    requires a >= 0 && b > 0
    ensures a / b >= 0
  {
    DivBounds(a, b);
    if a / b < 0 {
      MulMonotone(a / b, -1, b);
    }
  }

  /** Quotient and remainder are the only such pair. */
  lemma DivUnique(a: int, b: int, q: int, r: int)
    requires a >= 0 && b > 0 && q * b + r == a && 0 <= r < b
    ensures q == a / b && r == a % b
  {
    DivBounds(a, b);
    if q < a / b {
      MulMonotone(q + 1, a / b, b);
    } else if q > a / b {
      MulMonotone(a / b + 1, q, b);
    }
  }

  lemma MulMonotone(x: int, y: int, b: int)
    requires x <= y && b > 0
    ensures x * b <= y * b
  {
    assert y * b - x * b == (y - x) * b;
  }

  lemma MulStrict(x: int, y: int, d: int)
    requires x < y && d > 0
    ensures d * x < d * y
  {
    assert d * y - d * x == d * (y - x);
    MulMonotone(1, y - x, d);
  }

  /** Division by a positive number is monotone. */
  lemma DivMonotone(a: int, b: int, d: int)
    requires 0 <= a <= b && d > 0
    ensures a / d <= b / d
  {
    DivBounds(a, d);
    DivBounds(b, d);
    assert (b / d + 1) * d == (b / d) * d + d;
    if a / d > b / d {
      MulMonotone(b / d + 1, a / d, d);
    }
  }

  /** A position before `t` lies in a piece before the piece count. */
  lemma DivBelowCeil(a: int, t: nat, b: int)
    requires 0 <= a < t && b > 0
    ensures a / b < CeilDiv(t, b)
  {
    DivBounds(a, b);
    var q, c := a / b, CeilDiv(t, b);
    if c <= q {
      MulMonotone(c, q, b);
    }
  }

  // ---------------------------------------------------------------- QString

  /** ASCII lower case; other characters are left alone. */
  function AsciiLower(c: char): char
  {
    if 'A' <= c <= 'Z' then (c as int + 32) as char else c
  }

  /** QString::endsWith(suffix, Qt::CaseInsensitive), folding ASCII only. */
  predicate EndsWithIgnoreCase(s: string, suffix: string)
  {
    |suffix| <= |s| && forall k :: 0 <= k < |suffix| ==> AsciiLower(s[|s| - |suffix| + k]) == AsciiLower(suffix[k])
  }

  /** QString::indexOf(c, from): the first position at or after `from`
      holding `c`, or -1. */
  function IndexOf(s: string, c: char, from: nat): (k: int)
    decreases |s| - from
    ensures k == -1 || (from <= k < |s| && s[k] == c)
    ensures k == -1 ==> forall j :: from <= j < |s| ==> s[j] != c
    ensures k != -1 ==> forall j :: from <= j < k ==> s[j] != c
  {
    if from >= |s| then -1
    else if s[from] == c then from
    else IndexOf(s, c, from + 1)
  }

  /** A position holding `c` with no `c` before it (from `from` on) is
      what indexOf finds. */
  lemma IndexOfAt(s: string, c: char, from: nat, k: nat)
    requires from <= k < |s| && s[k] == c
    requires forall j :: from <= j < k ==> s[j] != c
    ensures IndexOf(s, c, from) == k
  {
  }

  /** QString::left(n): the whole string when n is negative or too large. */
  function Left(s: string, n: int): (r: string)
    ensures 0 <= n <= |s| ==> r == s[..n]
    ensures (n < 0 || n > |s|) ==> r == s
  {
    if 0 <= n <= |s| then s[..n] else s
  }

  /** QString::mid(pos): the tail from `pos`, empty when `pos` is past the end. */
  function MidTail<T>(s: seq<T>, pos: nat): (r: seq<T>)
    ensures pos <= |s| ==> r == s[pos..]
    ensures pos > |s| ==> r == []
  {
    if pos <= |s| then s[pos..] else []
  }

  /** QString::mid(pos, n) / QByteArray::mid(pos, n) for a non-negative
      position: at most `n` elements from `pos`, clamped to the end; a
      negative `n` means "to the end". */
  function Mid<T>(s: seq<T>, pos: nat, n: int): (r: seq<T>)
    ensures pos > |s| ==> r == []
    ensures pos <= |s| && 0 <= n <= |s| - pos ==> r == s[pos..pos + n]
    ensures pos <= |s| && (n < 0 || n > |s| - pos) ==> r == s[pos..]
    ensures |r| <= |s|
  {
    if pos > |s| then []
    else if n < 0 || n > |s| - pos then s[pos..]
    else s[pos..pos + n]
  }

  /** QString::toLatin1: characters above U+00FF become '?'. */
  function Latin1(s: string): (r: seq<byte>)
    ensures |r| == |s|
  {
    seq(|s|, k requires 0 <= k < |s| => if s[k] as int < 256 then s[k] as int else '?' as int)
  }

  lemma Latin1Append(a: string, b: string)
    ensures Latin1(a + b) == Latin1(a) + Latin1(b)
  {
    var l, r := Latin1(a + b), Latin1(a) + Latin1(b);
    assert |l| == |r|;
    forall k | 0 <= k < |l| ensures l[k] == r[k] {
      if k < |a| { assert (a + b)[k] == a[k]; } else { assert (a + b)[k] == b[k - |a|]; }
    }
  }

  // --------------------------------------------------------- decimal numbers

  predicate IsDigit(c: char) { '0' <= c <= '9' }

  predicate AllDigits(s: string) { forall k :: 0 <= k < |s| ==> IsDigit(s[k]) }

  function DigitValue(c: char): nat
    requires IsDigit(c)
  {
    c as int - '0' as int
  }

  /** The value of a run of decimal digits, most significant first. */
  function DigitsValue(s: string): nat
    requires AllDigits(s)
  {
    if |s| == 0 then 0 else DigitsValue(s[..|s| - 1]) * 10 + DigitValue(s[|s| - 1])
  }

  function DigitChar(d: nat): (c: char)
    requires d < 10
    ensures IsDigit(c) && DigitValue(c) == d
  {
    ('0' as int + d) as char
  }

  /** The decimal text of a natural number, without leading zeros. */
  function NatText(n: nat): (s: string)
    ensures |s| > 0 && AllDigits(s)
  {
    if n < 10 then [DigitChar(n)] else NatText(n / 10) + [DigitChar(n % 10)]
  }

  /** QString::number(n). */
  function Number(n: int): (s: string)
    ensures |s| > 0
    ensures '/' !in s
  {
    var r := if n < 0 then "-" + NatText(-n) else NatText(n);
    assert forall k :: 0 <= k < |r| ==> r[k] == '-' || IsDigit(r[k]);
    r
  }

  lemma {:induction false} NatTextValue(n: nat)
    ensures DigitsValue(NatText(n)) == n
  {
    if n >= 10 {
      NatTextValue(n / 10);
      var s := NatText(n);
      assert s[..|s| - 1] == NatText(n / 10);
    }
  }

  predicate IsSpace(c: char)
  {
    c == ' ' || c == '\t' || c == '\n' || c == '\r' || c == '\U{B}' || c == '\U{C}'
  }

  /** The string without leading and trailing ASCII white space. */
  function Trimmed(s: string): (r: string)
    decreases |s|
    ensures |r| <= |s|
    ensures |r| > 0 ==> !IsSpace(r[0]) && !IsSpace(r[|r| - 1])
    ensures (|s| == 0 || (!IsSpace(s[0]) && !IsSpace(s[|s| - 1]))) ==> r == s
  {
    if |s| > 0 && IsSpace(s[0]) then Trimmed(s[1..])
    else if |s| > 0 && IsSpace(s[|s| - 1]) then Trimmed(s[..|s| - 1])
    else s
  }

  /** The integer written as an optional sign and one or more decimal
      digits, if there is one. */
  function SignedValue(s: string): (r: Option<int>)
    ensures r.Some? <==> (|s| > 0 && AllDigits(s)) ||
                         (|s| > 1 && (s[0] == '+' || s[0] == '-') && AllDigits(s[1..]))
  {
    if |s| > 0 && AllDigits(s) then Some(DigitsValue(s) as int)
    else if |s| > 1 && s[0] == '+' && AllDigits(s[1..]) then Some(DigitsValue(s[1..]))
    else if |s| > 1 && s[0] == '-' && AllDigits(s[1..]) then Some(-(DigitsValue(s[1..]) as int))
    else None
  }

  /** Decimal conversion in the "C" locale, as QString::toInt and
      QString::toLongLong do it: surrounding white space is ignored, a sign
      is allowed, and a value outside [lo, hi] fails. */
  function ParseInteger(s: string, lo: int, hi: int): (r: Option<int>)
    ensures r.Some? ==> lo <= r.value <= hi
    ensures r.Some? <==> SignedValue(Trimmed(s)).Some? && lo <= SignedValue(Trimmed(s)).value <= hi
  {
    match SignedValue(Trimmed(s))
    case Some(v) => if lo <= v <= hi then Some(v) else None
    case None => None
  }

  /** Text without a minus sign never converts to a negative number. */
  lemma NoMinusNonNegative(s: string, lo: int, hi: int)
    requires '-' !in s && ParseInteger(s, lo, hi).Some?
    ensures ParseInteger(s, lo, hi).value >= 0
  {
    TrimmedChars(s);
  }

  /** Trimming only removes characters. */
  lemma {:induction false} TrimmedChars(s: string)
    decreases |s|
    ensures forall k :: 0 <= k < |Trimmed(s)| ==> Trimmed(s)[k] in s
  {
    if |s| > 0 && IsSpace(s[0]) {
      TrimmedChars(s[1..]);
      forall k | 0 <= k < |Trimmed(s)| ensures Trimmed(s)[k] in s {
        assert Trimmed(s)[k] in s[1..];
      }
    } else if |s| > 0 && IsSpace(s[|s| - 1]) {
      TrimmedChars(s[..|s| - 1]);
      forall k | 0 <= k < |Trimmed(s)| ensures Trimmed(s)[k] in s {
        assert Trimmed(s)[k] in s[..|s| - 1];
      }
    }
  }

  /** QString::toInt with base 10. */
  function ToInt(s: string): Option<int> { ParseInteger(s, INT32_MIN, INT32_MAX) }

  /** QString::toLongLong with base 10. */
  function ToLongLong(s: string): Option<int> { ParseInteger(s, INT64_MIN, INT64_MAX) }

  /** Decimal text converts back to the number it was written from. */
  lemma NumberRoundTrip(n: int, lo: int, hi: int)
    requires lo <= n <= hi
    ensures ParseInteger(Number(n), lo, hi) == Some(n)
  {
    if n < 0 { NegativeRoundTrip(n); } else { NonNegativeRoundTrip(n); }
  }

  lemma NonNegativeRoundTrip(n: nat)
    ensures SignedValue(Trimmed(Number(n))) == Some(n)
  {
    var s := NatText(n);
    NatTextValue(n);
    assert Number(n) == s;
    assert IsDigit(s[0]) && IsDigit(s[|s| - 1]);
    assert Trimmed(s) == s;
  }

  lemma NegativeRoundTrip(n: int)
    requires n < 0
    ensures SignedValue(Trimmed(Number(n))) == Some(n)
  {
    var t := NatText(-n);
    NatTextValue(-n);
    var s := "-" + t;
    assert Number(n) == s;
    assert s[0] == '-' && s[|s| - 1] == t[|t| - 1] && IsDigit(t[|t| - 1]);
    assert Trimmed(s) == s;
    assert s[1..] == t;
    assert !AllDigits(s) by { assert !IsDigit(s[0]); }
  }
}
