/** Decimal numerals as Python reads and writes them: `str.isdigit` on ASCII, `str(int)` and `int(str)`. */
module Numerals {
  import opened Options
  import opened Strings

  predicate IsDigit(c: char) {
    '0' <= c <= '9'
  }

  predicate AllDigits(s: string) {
    forall i :: 0 <= i < |s| ==> IsDigit(s[i])
  }

  /** `''.join(filter(str.isdigit, s))`: the digits of `s`, in order. */
  function DigitsOf(s: string): (ds: string)
    ensures AllDigits(ds)
    ensures |ds| <= |s|
  {
    if s == [] then []
    else (if IsDigit(s[0]) then [s[0]] else []) + DigitsOf(s[1..])
  }

  /** A string of digits keeps all of them. */
  lemma {:induction false} DigitsOfDigits(s: string)
    requires AllDigits(s)
    ensures DigitsOf(s) == s
  {
    if s != [] {
      DigitsOfDigits(s[1..]);
      assert [s[0]] + s[1..] == s;
    }
  }

  /** `DigitsOf` distributes over concatenation. */
  lemma {:induction false} DigitsOfAppend(a: string, b: string)
    ensures DigitsOf(a + b) == DigitsOf(a) + DigitsOf(b)
  {
    if a != [] {
      assert (a + b)[0] == a[0] && (a + b)[1..] == a[1..] + b;
      DigitsOfAppend(a[1..], b);
    } else {
      assert a + b == b;
    }
  }

  function DigitValue(c: char): nat
    requires IsDigit(c)
  {
    c as int - '0' as int
  }

  /** The number a string of decimal digits denotes (leading zeros allowed, as `int` allows them). */
  function DecimalValue(ds: string): nat
    requires AllDigits(ds)
  {
    if ds == [] then 0 else DecimalValue(ds[..|ds| - 1]) * 10 + DigitValue(ds[|ds| - 1])
  }

  function Pow10(n: nat): (p: nat)
    ensures p >= 1
  {
    if n == 0 then 1 else 10 * Pow10(n - 1)
  }

  /** Writing `b` after `a` shifts the value of `a` by the width of `b`. */
  lemma {:induction false} DecimalValueAppend(a: string, b: string)
    requires AllDigits(a) && AllDigits(b)
    ensures AllDigits(a + b) && DecimalValue(a + b) == DecimalValue(a) * Pow10(|b|) + DecimalValue(b)
  {
    assert AllDigits(a + b) by {
      forall i | 0 <= i < |a + b| ensures IsDigit((a + b)[i]) {
        if i >= |a| {
          assert (a + b)[i] == b[i - |a|];
        }
      }
    }
    if b == [] {
      assert a + b == a;
    } else {
      var b' := b[..|b| - 1];
      assert (a + b)[..|a + b| - 1] == a + b';
      assert (a + b)[|a + b| - 1] == b[|b| - 1];
      DecimalValueAppend(a, b');
      var x, p, y, d := DecimalValue(a), Pow10(|b'|), DecimalValue(b'), DigitValue(b[|b| - 1]);
      assert DecimalValue(a + b) == DecimalValue(a + b') * 10 + d;
      assert DecimalValue(b) == y * 10 + d;
      assert Pow10(|b|) == 10 * p;
      ShiftByTen(x, p);
    }
  }

  lemma ShiftByTen(x: int, p: int)
    ensures (x * p) * 10 == x * (10 * p)
  {
  }

  function DigitChar(d: nat): (c: char)
    requires d < 10
    ensures IsDigit(c) && DigitValue(c) == d
  {
    ('0' as int + d) as char
  }

  /** `str(n)` for a natural number: decimal digits without leading zeros. */
  function NatToString(n: nat): (s: string)
    ensures |s| >= 1 && AllDigits(s)
  {
    if n < 10 then [DigitChar(n)] else NatToString(n / 10) + [DigitChar(n % 10)]
  }

  /** Reading back the digits `str` writes gives the number. */
  lemma {:induction false} DecimalValueOfNatToString(n: nat)
    ensures DecimalValue(NatToString(n)) == n
  {
    if n >= 10 {
      DecimalValueOfNatToString(n / 10);
      var s := NatToString(n);
      assert s[..|s| - 1] == NatToString(n / 10);
    }
  }

  /** `str(i)` for any integer. */
  function Abs(i: int): nat {
    if i < 0 then -i else i
  }

  function IntToString(i: int): string {
    (if i < 0 then "-" else "") + NatToString(Abs(i))
  }

  /** The body `int()` accepts after the sign: digits, with single underscores between digits. */
  predicate IsIntegerLiteral(b: string) {
    |b| > 0 && IsDigit(b[0]) && IsDigit(b[|b| - 1])
    && forall i :: 0 <= i < |b| ==> IsDigit(b[i]) || (b[i] == '_' && i + 1 < |b| && IsDigit(b[i + 1]))
  }

  /** The magnitude `int()` reads from the text after the sign. */
  function ParseMagnitude(body: string): Option<nat> {
    if IsIntegerLiteral(body) then Some(DecimalValue(DigitsOf(body))) else None
  }

  /** An optional leading sign split off: whether it was a minus, and the text after it. */
  function SplitSign(t: string): (r: (bool, string))
    ensures r.0 <==> |t| > 0 && t[0] == '-'
    ensures r.1 == if |t| > 0 && (t[0] == '-' || t[0] == '+') then t[1..] else t
  {
    if |t| > 0 && t[0] == '-' then (true, t[1..])
    else if |t| > 0 && t[0] == '+' then (false, t[1..])
    else (false, t)
  }

  /** `int()` of an already stripped text: an optional sign, then the magnitude. */
  function ParseSigned(t: string): Option<int> {
    var (negative, body) := SplitSign(t);
    match ParseMagnitude(body)
    case Some(m) => Some(if negative then -(m as int) else m as int)
    case None => None
  }

  /** Python's `int(text)` for a decimal string: `None` where `int` raises `ValueError`. */
  function ParseInt(text: string): Option<int> {
    ParseSigned(Strip(text))
  }

  /** A run of digits is read as its decimal value. */
  lemma ParseMagnitudeOfDigits(digits: string)
    requires |digits| >= 1 && AllDigits(digits)
    ensures ParseMagnitude(digits) == Some(DecimalValue(digits))
  {
    assert IsIntegerLiteral(digits);
    DigitsOfDigits(digits);
  }

  /** `int()` reads a run of digits as its value. */
  lemma ParseIntOfDigits(digits: string)
    requires |digits| >= 1 && AllDigits(digits)
    ensures ParseInt(digits) == Some(DecimalValue(digits) as int)
  {
    var m := DecimalValue(digits);
    ParseMagnitudeOfDigits(digits);
    StripUnchanged(digits);
    ParseSignedUnsigned(digits, m);
    ParseIntStripped(digits, Some(m as int));
  }

  /** A text that starts with a digit has no sign: it is read as its magnitude. */
  lemma ParseSignedUnsigned(body: string, m: nat)
    requires |body| > 0 && IsDigit(body[0])
    requires ParseMagnitude(body) == Some(m)
    ensures ParseSigned(body) == Some(m as int)
  {
    assert SplitSign(body) == (false, body);
  }

  /** A minus sign followed by digits is already stripped. */
  lemma StripSignedDigits(digits: string)
    requires |digits| >= 1 && AllDigits(digits)
    ensures Strip("-" + digits) == "-" + digits
  {
    var t := "-" + digits;
    assert t[|t| - 1] == digits[|digits| - 1];
    StripUnchanged(t);
  }

  /** A minus sign negates the magnitude that follows it. */
  lemma ParseSignedNegative(body: string, m: nat)
    requires ParseMagnitude(body) == Some(m)
    ensures ParseSigned("-" + body) == Some(-(m as int))
  {
    var t := "-" + body;
    assert t[1..] == body;
    assert SplitSign(t) == (true, body);
  }

  lemma ParseIntStripped(t: string, v: Option<int>)
    requires Strip(t) == t && ParseSigned(t) == v
    ensures ParseInt(t) == v
  {
  }

  /** `int()` reads a minus sign and a run of digits as the negated magnitude. */
  lemma ParseIntOfNegatedDigits(digits: string, m: nat)
    requires |digits| >= 1 && AllDigits(digits)
    requires ParseMagnitude(digits) == Some(m)
    ensures ParseInt("-" + digits) == Some(-(m as int))
  {
    StripSignedDigits(digits);
    ParseSignedNegative(digits, m);
    ParseIntStripped("-" + digits, Some(-(m as int)));
  }

  /** `int(str(i)) == i`. */
  lemma ParseIntOfIntToString(i: int)
    ensures ParseInt(IntToString(i)) == Some(i)
  {
    var digits := NatToString(Abs(i));
    DecimalValueOfNatToString(Abs(i));
    if i < 0 {
      ParseMagnitudeOfDigits(digits);
      ParseIntOfNegatedDigits(digits, Abs(i));
    } else {
      assert "" + digits == digits;
      ParseIntOfDigits(digits);
    }
  }
}
