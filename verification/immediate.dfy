/** `parse_immediate`: an immediate operand read by `strtol` with base 0,
    accepted only when the whole string is consumed, and cast to `int32_t`.

    With base 0, `strtol` skips leading white space, takes an optional sign,
    and then reads a hexadecimal number after `0x` or `0X`, an octal number
    after a leading `0`, and a decimal number otherwise. A value beyond the
    range of `long` (64 bits here) saturates, and the cast to `int32_t` keeps
    the low 32 bits as a two's complement number. This is `strtol` as C17
    and earlier define it: the binary numbers after `0b` or `0B` that C23
    adds are rejected (`BinaryPrefixRejected`). */
module Immediate {
  import opened Wrappers
  import opened Text

  const LONG_MIN: int := -0x8000_0000_0000_0000
  const LONG_MAX: int := 0x7FFF_FFFF_FFFF_FFFF
  const INT32_MIN: int := -0x8000_0000
  const INT32_MAX: int := 0x7FFF_FFFF

  predicate IsHexDigit(c: char)
  {
    '0' <= c <= '9' || 'a' <= c <= 'f' || 'A' <= c <= 'F'
  }

  function DigitValue(c: char): (d: nat)
    requires IsHexDigit(c)
    ensures d < 16
    ensures d < 10 <==> '0' <= c <= '9'
    ensures d < 8 <==> '0' <= c <= '7'
  {
    if '0' <= c <= '9' then (c as int) - ('0' as int)
    else if 'a' <= c <= 'f' then (c as int) - ('a' as int) + 10
    else (c as int) - ('A' as int) + 10
  }

  /** Every character of s is a digit of the base. */
  predicate Digits(s: string, base: nat)
  {
    forall i | 0 <= i < |s| :: IsHexDigit(s[i]) && DigitValue(s[i]) < base
  }

  /** The number a string of digits denotes, most significant digit first. */
  function Value(s: string, base: nat): nat
    requires Digits(s, base)
  {
    if |s| == 0 then 0 else Value(s[..|s| - 1], base) * base + DigitValue(s[|s| - 1])
  }

  /** The unsigned number a whole string denotes in one of the three forms,
      or None if no form spans all of it. */
  function Magnitude(t: string): (r: Option<nat>)
    ensures r.Some? ==> |t| > 0 && IsHexDigit(t[|t| - 1])
  {
    if |t| >= 3 && t[0] == '0' && (t[1] == 'x' || t[1] == 'X') && Digits(t[2..], 16) then
      assert t[|t| - 1] == t[2..][|t| - 3];
      Some(Value(t[2..], 16))
    else if |t| >= 1 && t[0] == '0' && Digits(t[1..], 8) then
      assert |t| > 1 ==> t[|t| - 1] == t[1..][|t| - 2];
      Some(Value(t[1..], 8))
    else if |t| >= 1 && '1' <= t[0] <= '9' && Digits(t, 10) then
      Some(Value(t, 10))
    else None
  }

  /** An optional sign followed by a magnitude. */
  function Signed(t: string): (r: Option<int>)
    ensures r.Some? ==> |t| > 0 && IsHexDigit(t[|t| - 1])
  {
    if |t| > 0 && (t[0] == '-' || t[0] == '+') then
      match Magnitude(t[1..])
      case None => None
      case Some(m) =>
        assert t[|t| - 1] == t[1..][|t| - 2];
        var v: int := if t[0] == '-' then -(m as int) else m;
        Some(v)
    else Magnitude(t)
  }

  /** `strtol` saturates at the bounds of `long`. */
  function ClampLong(v: int): (r: int)
    ensures LONG_MIN <= r <= LONG_MAX
    ensures LONG_MIN <= v <= LONG_MAX ==> r == v
  {
    if v < LONG_MIN then LONG_MIN else if v > LONG_MAX then LONG_MAX else v
  }

  /** The cast to `int32_t`: the low 32 bits, read in two's complement. */
  function ToInt32(v: int): (r: int)
    ensures INT32_MIN <= r <= INT32_MAX
    ensures (r - v) % 0x1_0000_0000 == 0
    ensures INT32_MIN <= v <= INT32_MAX ==> r == v
  {
    (v - INT32_MIN) % 0x1_0000_0000 + INT32_MIN
  }

  /** `parse_immediate`: the value, or None where it reports failure. */
  function ParseImmediate(s: string): (r: Option<int>)
    ensures r.Some? ==> INT32_MIN <= r.value <= INT32_MAX
    ensures r.Some? ==> |s| > 0 && IsHexDigit(s[|s| - 1])
  {
    match Signed(TrimLeft(s))
    case None => None
    case Some(v) => Some(ToInt32(ClampLong(v)))
  }

  // ---------------------------------------------------------------------------
  // Printing numbers, the inverse of reading them

  function DigitChar(d: nat): (c: char)
    requires d < 16
    ensures IsHexDigit(c) && DigitValue(c) == d
  {
    if d < 10 then (('0' as int) + d) as char else (('a' as int) + d - 10) as char
  }

  /** The numeral of n in the base, without leading zeros. */
  function Numeral(n: nat, base: nat): (s: string)
    requires 2 <= base <= 16
    ensures |s| >= 1
    decreases n
  {
    if n < base then [DigitChar(n)] else Numeral(n / base, base) + [DigitChar(n % base)]
  }

  /** A numeral is made of digits of its base, starts with a non-zero digit
      unless it is "0", and denotes its number. */
  lemma {:induction false} NumeralValue(n: nat, base: nat)
    requires 2 <= base <= 16
    ensures Digits(Numeral(n, base), base)
    ensures Value(Numeral(n, base), base) == n
    ensures n > 0 ==> Numeral(n, base)[0] != '0'
    decreases n
  {
    var s := Numeral(n, base);
    if n < base {
      assert s == [DigitChar(n)];
      assert s[..0] == [];
    } else {
      var hi := Numeral(n / base, base);
      var last := DigitChar(n % base);
      DivStep(n, base);
      NumeralValue(n / base, base);
      assert s == hi + [last];
      assert s[..|s| - 1] == hi && s[|s| - 1] == last;
      assert Digits(s, base) by {
        forall i | 0 <= i < |s| ensures IsHexDigit(s[i]) && DigitValue(s[i]) < base {
          if i < |hi| {
            assert s[i] == hi[i];
          }
        }
      }
      assert Value(s, base) == Value(hi, base) * base + n % base;
      assert s[0] == hi[0];
    }
  }

  lemma DivStep(n: nat, b: nat)
    requires 2 <= b <= n
    ensures 1 <= n / b < n && (n / b) * b + n % b == n
  {
    var q, r := n / b, n % b;
    assert n == b * q + r;
    assert q >= 1 by {
      assert r < b <= n;
    }
    assert b * q >= 2 * q;
  }

  /** Each non-negative number written in decimal reads back as itself. */
  lemma DecimalMagnitude(n: nat)
    ensures Magnitude(Numeral(n, 10)) == Some(n)
  {
    var t := Numeral(n, 10);
    NumeralValue(n, 10);
    assert IsHexDigit(t[0]) && DigitValue(t[0]) < 10;
    if n == 0 {
      assert t == [DigitChar(0)];
      assert t[1..] == [];
    }
  }

  /** The decimal numeral of v, as `printf("%d")` writes it. */
  function Decimal(v: int): string
  {
    if v < 0 then "-" + Numeral(-v, 10) else Numeral(v, 10)
  }

  /** A string that starts with neither white space nor a sign is read as
      a magnitude. */
  lemma UnsignedText(t: string)
    requires |t| > 0 && !IsSpace(t[0]) && t[0] != '-' && t[0] != '+'
    ensures ParseImmediate(t) == match Magnitude(t) case None => None case Some(m) => Some(ToInt32(ClampLong(m)))
  {
    assert TrimLeft(t) == t;
  }

  /** A minus sign followed by a magnitude is read as its negation. */
  lemma NegatedText(t: string, m: nat)
    requires Magnitude(t) == Some(m) && m <= -INT32_MIN
    ensures ParseImmediate("-" + t) == Some(-(m as int))
  {
    var d := "-" + t;
    assert d[0] == '-' && d[1..] == t;
    assert TrimLeft(d) == d;
    assert Signed(d) == Some(-(m as int));
  }

  /** Every `int32_t` written in decimal reads back as itself. */
  lemma DecimalRoundTrip(v: int)
    requires INT32_MIN <= v <= INT32_MAX
    ensures ParseImmediate(Decimal(v)) == Some(v)
  {
    if v < 0 {
      NegativeDecimal(-v);
    } else {
      NonNegativeDecimal(v);
    }
  }

  lemma NegativeDecimal(n: nat)
    requires 0 < n <= -INT32_MIN
    ensures ParseImmediate("-" + Numeral(n, 10)) == Some(-(n as int))
  {
    DecimalMagnitude(n);
    NegatedText(Numeral(n, 10), n);
  }

  lemma NonNegativeDecimal(n: nat)
    requires n <= INT32_MAX
    ensures ParseImmediate(Numeral(n, 10)) == Some(n)
  {
    var t := Numeral(n, 10);
    DecimalMagnitude(n);
    NumeralValue(n, 10);
    assert IsHexDigit(t[0]) && DigitValue(t[0]) < 10;
    UnsignedText(t);
  }

  /** Every 32-bit pattern written in hexadecimal after `0x` reads back as
      the `int32_t` with those bits: patterns from 0x80000000 on come out
      negative. */
  lemma HexRoundTrip(n: nat)
    requires n <= 0xFFFF_FFFF
    ensures ParseImmediate("0x" + Numeral(n, 16)) == Some(ToInt32(n))
    ensures n <= INT32_MAX ==> ParseImmediate("0x" + Numeral(n, 16)) == Some(n)
  {
    var t := "0x" + Numeral(n, 16);
    HexMagnitude(n);
    assert t[0] == '0';
    UnsignedText(t);
  }

  /** "0x" followed by the hexadecimal numeral of n denotes n. */
  lemma HexMagnitude(n: nat)
    ensures Magnitude("0x" + Numeral(n, 16)) == Some(n)
  {
    var t := "0x" + Numeral(n, 16);
    NumeralValue(n, 16);
    assert t[0] == '0' && t[1] == 'x' && t[2..] == Numeral(n, 16);
  }

  /** White space before the number is skipped. */
  lemma LeadingSpaceSkipped(spaces: string, s: string)
    requires AllSpace(spaces)
    ensures ParseImmediate(spaces + s) == ParseImmediate(s)
  {
    TrimLeftSkipsSpace(spaces, s);
  }

  /** Anything after the number, white space included, makes it invalid. */
  lemma TrailingTextRejected(s: string, c: char)
    requires !IsHexDigit(c)
    ensures ParseImmediate(s + [c]) == None
  {
    assert (s + [c])[|s + [c]| - 1] == c;
  }

  /** A leading zero makes the number octal: "0" followed by the octal
      numeral of n reads as n. */
  lemma OctalRoundTrip(n: nat)
    requires n <= INT32_MAX
    ensures ParseImmediate("0" + Numeral(n, 8)) == Some(n)
  {
    var t := "0" + Numeral(n, 8);
    NumeralValue(n, 8);
    assert t[0] == '0' && t[1..] == Numeral(n, 8);
    assert Magnitude(t) == Some(n);
    UnsignedText(t);
  }

  /** So a decimal number written with a leading zero and a digit 8 or 9 is
      rejected. */
  lemma LeadingZeroDecimal(s: string)
    requires forall i | 0 <= i < |s| :: '0' <= s[i] <= '9'
    requires exists i | 0 <= i < |s| :: s[i] == '8' || s[i] == '9'
    ensures ParseImmediate("0" + s) == None
  {
    var t := "0" + s;
    var i :| 0 <= i < |s| && (s[i] == '8' || s[i] == '9');
    assert t[1..] == s;
    assert TrimLeft(t) == t;
    assert !Digits(t[1..], 8) by { assert DigitValue(s[i]) >= 8; }
  }

  /** A binary number after `0b`, which `strtol` reads from C23 on, is
      rejected: before C23 the `b` ends an octal number that began with the
      `0`. */
  lemma BinaryPrefixRejected(s: string)
    ensures ParseImmediate("0b" + s) == None
  {
    var t := "0b" + s;
    assert TrimLeft(t) == t;
    assert !Digits(t[1..], 8) by { assert t[1..][0] == 'b'; }
  }
}
