/**
 * Decimal text: `str(n)` for naturals, zero padding as in a `{:02d}` format
 * spec, fixed three-decimal formatting as in `{:.3f}`, and a reader for plain
 * decimal literals (the subset of Python's `float()` inputs that such
 * formatting produces).
 */
module Decimal {
  import opened Wrappers
  import Text

  predicate IsDigit(c: char)
  {
    '0' <= c <= '9'
  }

  predicate AllDigits(s: string)
  {
    forall i :: 0 <= i < |s| ==> IsDigit(s[i])
  }

  /** Digits are not whitespace, so a digit string is a single field. */
  lemma DigitsAreToken(s: string)
    requires s != [] && AllDigits(s)
    ensures Text.IsToken(s)
  {
  }

  function DigitChar(d: nat): (c: char)
    requires d < 10
    ensures IsDigit(c) && c as int - '0' as int == d
  {
    ('0' as int + d) as char
  }

  /** The number a string of decimal digits denotes; leading zeros are allowed. */
  function Value(s: string): nat
    requires AllDigits(s)
  {
    if s == [] then 0 else Value(s[..|s| - 1]) * 10 + (s[|s| - 1] as int - '0' as int)
  }

  function Pow10(k: nat): (p: nat)
    ensures p >= 1
  {
    if k == 0 then 1 else 10 * Pow10(k - 1)
  }

  /** Python's `str(n)` for a natural number: the decimal digits of `n`, without leading zeros. */
  function Digits(n: nat): (s: string)
    ensures s != [] && AllDigits(s)
    ensures |s| > 1 ==> s[0] != '0'
    decreases n
  {
    if n < 10 then [DigitChar(n)] else Digits(n / 10) + [DigitChar(n % 10)]
  }

  /** Reading the digits of `str(n)` gives `n` back. */
  lemma {:induction false} DigitsValue(n: nat)
    ensures Value(Digits(n)) == n
    decreases n
  {
    if n >= 10 {
      var p := Digits(n / 10);
      var s := Digits(n);
      assert s[..|s| - 1] == p;
      DigitsValue(n / 10);
    }
  }

  /** A number below 10^k has at most k digits. */
  lemma {:induction false} DigitsLength(n: nat, k: nat)
    requires 1 <= k && n < Pow10(k)
    ensures |Digits(n)| <= k
    decreases n
  {
    if n >= 10 {
      assert Pow10(k) == 10 * Pow10(k - 1);
      assert n / 10 < Pow10(k - 1);
      DigitsLength(n / 10, k - 1);
    }
  }

  /** A zero in front does not change the number. */
  lemma {:induction false} LeadingZero(s: string)
    requires AllDigits(s)
    ensures AllDigits("0" + s) && Value("0" + s) == Value(s)
    decreases |s|
  {
    if s != [] {
      var n := |s| - 1;
      assert ("0" + s)[..|s|] == "0" + s[..n];
      LeadingZero(s[..n]);
    }
  }

  /** `n` zero digits. */
  function Zeros(n: nat): (z: string)
    ensures |z| == n && AllDigits(z)
    ensures forall i :: 0 <= i < n ==> z[i] == '0'
  {
    seq(n, _ => '0')
  }

  /** `s` with zeros put in front until it is `width` long: the `0` flag and width of a format spec. */
  function ZeroPad(s: string, width: nat): (r: string)
    requires AllDigits(s)
    ensures |r| == if |s| < width then width else |s|
    ensures AllDigits(r)
  {
    if |s| >= width then s else Zeros(width - |s|) + s
  }

  /** Zero padding does not change the number. */
  lemma ZeroPadValue(s: string, width: nat)
    requires AllDigits(s)
    ensures Value(ZeroPad(s, width)) == Value(s)
  {
    if |s| < width {
      assert ZeroPad(s, width) == Zeros(width - |s|) + s;
      ZerosValue(width - |s|, s);
    } else {
      assert ZeroPad(s, width) == s;
    }
  }

  /** Zeros in front do not change the number. */
  lemma {:induction false} ZerosValue(n: nat, s: string)
    requires AllDigits(s)
    ensures Value(Zeros(n) + s) == Value(s)
    decreases n
  {
    if n > 0 {
      var shorter := Zeros(n - 1) + s;
      assert Zeros(n) == "0" + Zeros(n - 1);
      assert Zeros(n) + s == "0" + shorter;
      assert AllDigits(shorter) by { ConcatDigits(Zeros(n - 1), s); }
      LeadingZero(shorter);
      ZerosValue(n - 1, s);
    } else {
      assert Zeros(n) + s == s;
    }
  }

  lemma ConcatDigits(a: string, b: string)
    requires AllDigits(a) && AllDigits(b)
    ensures AllDigits(a + b)
  {
  }

  /** The longest prefix of `s` made of digits. */
  function DigitPrefix(s: string): (p: string)
    ensures |p| <= |s| && p == s[..|p|] && AllDigits(p)
  {
    if s != [] && IsDigit(s[0]) then [s[0]] + DigitPrefix(s[1..]) else []
  }

  function Fraction(f: string): real
    requires AllDigits(f)
  {
    Value(f) as real / Pow10(|f|) as real
  }

  function Signed(negative: bool, x: real): real
  {
    if negative then -x else x
  }

  /**
   * Python's `float(s)` restricted to plain decimal literals: an optional sign,
   * digits, and an optional fraction after a point, with at least one digit in
   * all. Anything else yields None, as `float` raises ValueError.
   */
  function ParseDecimal(s: string): (r: Option<real>)
  {
    if s != [] && (s[0] == '-' || s[0] == '+') then
      match ParseUnsigned(s[1..])
      case Some(x) => Some(Signed(s[0] == '-', x))
      case None => None
    else ParseUnsigned(s)
  }

  /** A decimal literal without a sign: digits, then optionally a point and more digits. */
  function ParseUnsigned(body: string): (r: Option<real>)
  {
    var whole := DigitPrefix(body);
    var rest := body[|whole|..];
    if rest == [] then
      if whole == [] then None else Some(Value(whole) as real)
    else if rest[0] == '.' && AllDigits(rest[1..]) && (whole != [] || |rest| > 1) then
      Some(Value(whole) as real + Fraction(rest[1..]))
    else None
  }

  /** A whole number of milliseconds, written as seconds with exactly three decimals. */
  function Millis(ms: nat): (s: string)
  {
    Digits(ms / 1000) + "." + ZeroPad(Digits(ms % 1000), 3)
  }

  /**
   * Rounding to the nearest integer, an exact half to the even neighbour: the
   * correctly rounded result Python's `format` gives.
   */
  function RoundHalfEven(y: real): (r: int)
    ensures -0.5 <= y - r as real <= 0.5
    ensures (y - r as real == 0.5 || r as real - y == 0.5) ==> r % 2 == 0
  {
    var f := y.Floor;
    if y - f as real > 0.5 || (y - f as real == 0.5 && f % 2 == 1) then f + 1 else f
  }

  function Abs(x: real): real
  {
    if x < 0.0 then -x else x
  }

  /** The minus sign written before a negative number. */
  function Sign(negative: bool): string
  {
    if negative then "-" else ""
  }

  /** The magnitude of `x` in milliseconds, rounded to the nearest whole number. */
  function MillisCount(x: real): (m: nat)
    ensures -0.5 <= Abs(x) * 1000.0 - m as real <= 0.5
  {
    RoundHalfEven(Abs(x) * 1000.0)
  }

  /** Ties go to the even millisecond: 0.0625 s is written 0.062, 0.0635 s is written 0.064. */
  lemma TiesToEven()
    ensures MillisCount(0.0625) == 62 && MillisCount(-0.0625) == 62 && MillisCount(0.0635) == 64
  {
    assert (62.5).Floor == 62 && (63.5).Floor == 63;
  }

  /** `f"{x:.3f}"`: `x` rounded to the millisecond, a minus sign in front when it is negative. */
  function Fixed3(x: real): (s: string)
  {
    Sign(x < 0.0) + Millis(MillisCount(x))
  }

  lemma {:induction false} DigitPrefixOf(p: string, rest: string)
    requires AllDigits(p) && (rest == [] || !IsDigit(rest[0]))
    ensures DigitPrefix(p + rest) == p
    decreases |p|
  {
    if p != [] {
      assert (p + rest)[1..] == p[1..] + rest;
      DigitPrefixOf(p[1..], rest);
    }
  }

  /** A literal with a point and digits on both sides of it reads as its whole part plus its fraction, negated after a minus sign. */
  lemma ParsePointed(negative: bool, whole: string, frac: string)
    requires whole != [] && AllDigits(whole) && AllDigits(frac)
    ensures ParseDecimal(Sign(negative) + (whole + "." + frac)) ==
      Some(Signed(negative, Value(whole) as real + Fraction(frac)))
  {
    PointedReads(whole, frac);
    SignedRead(negative, whole + "." + frac, Value(whole) as real + Fraction(frac));
  }

  /** The unsigned and the negated reading of a pointed literal. */
  lemma PointedReads(whole: string, frac: string)
    requires whole != [] && AllDigits(whole) && AllDigits(frac)
    ensures ParseDecimal(whole + "." + frac) == Some(Value(whole) as real + Fraction(frac))
    ensures ParseDecimal("-" + (whole + "." + frac)) == Some(-(Value(whole) as real + Fraction(frac)))
  {
    var body := whole + "." + frac;
    ParseUnsignedPointed(whole, frac);
    assert body[0] == whole[0];
    ParseNegated(body);
  }

  /** A minus sign in front negates what the rest reads as. */
  lemma ParseNegated(body: string)
    ensures ParseDecimal("-" + body) ==
      if ParseUnsigned(body).Some? then Some(-ParseUnsigned(body).value) else None
  {
    assert ("-" + body)[0] == '-' && ("-" + body)[1..] == body;
  }

  /** A text that reads as `y`, and as `-y` after a minus sign, reads as the signed value with the sign in front. */
  lemma SignedRead(negative: bool, body: string, y: real)
    requires ParseDecimal(body) == Some(y) && ParseDecimal("-" + body) == Some(-y)
    ensures ParseDecimal(Sign(negative) + body) == Some(Signed(negative, y))
  {
    if negative {
      assert Sign(negative) + body == "-" + body;
    } else {
      assert Sign(negative) + body == body;
    }
  }

  lemma ParseUnsignedPointed(whole: string, frac: string)
    requires whole != [] && AllDigits(whole) && AllDigits(frac)
    ensures ParseUnsigned(whole + "." + frac) == Some(Value(whole) as real + Fraction(frac))
  {
    var body := whole + "." + frac;
    var rest := "." + frac;
    assert body == whole + rest;
    DigitPrefixOf(whole, rest);
    assert body[|whole|..] == rest;
    assert rest != [] && rest[0] == '.' && rest[1..] == frac;
  }

  /** The two parts Millis writes add up to the millisecond count, in seconds. */
  lemma MillisValue(ms: nat)
    ensures Value(Digits(ms / 1000)) as real + Fraction(ZeroPad(Digits(ms % 1000), 3)) == ms as real / 1000.0
  {
    var q, r := ms / 1000, ms % 1000;
    var frac := ZeroPad(Digits(r), 3);
    assert Pow10(3) == 1000;
    DigitsLength(r, 3);
    assert |frac| == 3;
    DigitsValue(q);
    DigitsValue(r);
    ZeroPadValue(Digits(r), 3);
    assert Value(frac) == r;
    assert ms == 1000 * q + r;
    assert Fraction(frac) == r as real / 1000.0;
  }

  /** Reading back a millisecond count written by Millis, with an optional minus sign, gives the signed number of seconds. */
  lemma ParseMillis(negative: bool, ms: nat)
    ensures ParseDecimal(Sign(negative) + Millis(ms)) == Some(Signed(negative, ms as real / 1000.0))
  {
    ParsePointed(negative, Digits(ms / 1000), ZeroPad(Digits(ms % 1000), 3));
    MillisValue(ms);
  }

  /** A time that is a whole number of milliseconds. */
  predicate WholeMillis(x: real)
  {
    (x * 1000.0).Floor as real == x * 1000.0
  }

  /**
   * What `{:.3f}` writes reads back within half a millisecond of the original
   * value, and exactly when the value is a whole number of milliseconds.
   */
  lemma Fixed3RoundTrip(x: real) returns (v: real)
    ensures ParseDecimal(Fixed3(x)) == Some(v)
    ensures -0.0005 <= v - x <= 0.0005
    ensures WholeMillis(x) ==> v == x
  {
    var m := MillisCount(x);
    v := Signed(x < 0.0, m as real / 1000.0);
    assert ParseDecimal(Fixed3(x)) == Some(v) by {
      ParseMillis(x < 0.0, m);
    }
    MillisError(x);
  }

  /** The millisecond count `{:.3f}` writes is within half a millisecond of the value, and exact on whole milliseconds. */
  lemma MillisError(x: real)
    ensures -0.0005 <= Signed(x < 0.0, MillisCount(x) as real / 1000.0) - x <= 0.0005
    ensures WholeMillis(x) ==> Signed(x < 0.0, MillisCount(x) as real / 1000.0) == x
  {
    var m := MillisCount(x);
    assert -0.0005 <= m as real / 1000.0 - Abs(x) <= 0.0005;
    if (x * 1000.0).Floor as real == x * 1000.0 {
      var k := (x * 1000.0).Floor;
      var a := if x < 0.0 then -k else k;
      assert Abs(x) * 1000.0 == a as real;
      assert m == a;
    }
  }

  /** What `{:.3f}` writes is a single field of an RTTM line: it contains no whitespace. */
  lemma Fixed3IsToken(x: real)
    ensures Text.IsToken(Fixed3(x))
  {
    var m := MillisCount(x);
    var body := Millis(m);
    var whole, frac := Digits(m / 1000), ZeroPad(Digits(m % 1000), 3);
    assert body == whole + "." + frac;
    assert forall i :: 0 <= i < |body| ==> IsDigit(body[i]) || body[i] == '.';
  }
}
