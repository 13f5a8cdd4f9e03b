/** Decimal numerals: Java's 32-bit `int`, `Integer.parseInt` and the
    `%0Nd` conversion of `String.format`. */
module Decimal {
  import opened Text

  const IntMin: int := -0x8000_0000
  const IntMax: int := 0x7fff_ffff

  /** The values of Java's `int`. */
  type Int32 = x: int | IntMin <= x <= IntMax

  function DigitValue(c: char): nat
    requires IsDigit(c)
  {
    (c as int) - ('0' as int)
  }

  function DigitChar(d: nat): (c: char)
    requires d < 10
    ensures IsDigit(c) && DigitValue(c) == d
  {
    (('0' as int) + d) as char
  }

  /** The number a string of ASCII digits denotes, most significant digit first. */
  function Value(s: string): nat
    requires AllDigits(s)
  {
    if |s| == 0 then 0 else 10 * Value(s[..|s| - 1]) + DigitValue(s[|s| - 1])
  }

  /** Leading zeros do not change the value of a numeral. */
  lemma {:induction false} ValueLeadingZeros(z: string, s: string)
    requires forall i :: 0 <= i < |z| ==> z[i] == '0'
    requires AllDigits(s)
    ensures AllDigits(z + s) && Value(z + s) == Value(s)
    decreases |s|
  {
    assert AllDigits(z + s) by {
      forall i | 0 <= i < |z + s| ensures IsDigit((z + s)[i]) {
        if i < |z| { assert (z + s)[i] == z[i]; } else { assert (z + s)[i] == s[i - |z|]; }
      }
    }
    if |s| == 0 {
      assert z + s == z;
      ZerosValue(z);
    } else {
      var init := s[..|s| - 1];
      assert (z + s)[..|z + s| - 1] == z + init;
      ValueLeadingZeros(z, init);
    }
  }

  lemma {:induction false} ZerosValue(z: string)
    requires forall i :: 0 <= i < |z| ==> z[i] == '0'
    ensures AllDigits(z) && Value(z) == 0
    decreases |z|
  {
    if |z| > 0 {
      ZerosValue(z[..|z| - 1]);
    }
  }

  /** Numerals of the same width are equal exactly when their values are. */
  lemma {:induction false} ValueInjective(a: string, b: string)
    requires AllDigits(a) && AllDigits(b) && |a| == |b|
    requires Value(a) == Value(b)
    ensures a == b
    decreases |a|
  {
    if |a| > 0 {
      var n := |a| - 1;
      ValueLastDigit(a);
      ValueLastDigit(b);
      ValueInjective(a[..n], b[..n]);
      assert a[n] == b[n] by { DigitValueInjective(a[n], b[n]); }
      assert a == a[..n] + [a[n]] && b == b[..n] + [b[n]];
    }
  }

  /** The last digit is the value modulo ten, the rest is the value divided by ten. */
  lemma ValueLastDigit(s: string)
    requires AllDigits(s) && |s| > 0
    ensures DigitValue(s[|s| - 1]) == Value(s) % 10
    ensures AllDigits(s[..|s| - 1]) && Value(s[..|s| - 1]) == Value(s) / 10
  {
    var q, d := Value(s[..|s| - 1]), DigitValue(s[|s| - 1]);
    DivModTen(Value(s), q, d);
  }

  lemma DivModTen(n: nat, q: nat, d: nat)
    requires d < 10 && n == 10 * q + d
    ensures n % 10 == d && n / 10 == q
  {
  }

  lemma DigitValueInjective(c: char, d: char)
    requires IsDigit(c) && IsDigit(d) && DigitValue(c) == DigitValue(d)
    ensures c == d
  {
  }

  /** The shortest decimal numeral of `n`. */
  function Decimal(n: nat): (r: string)
    ensures 1 <= |r| && AllDigits(r) && Value(r) == n
    ensures |r| > 1 ==> r[0] != '0'
  {
    if n < 10 then [DigitChar(n)]
    else
      var prefix := Decimal(n / 10);
      var r := prefix + [DigitChar(n % 10)];
      assert r[..|r| - 1] == prefix;
      r
  }

  /** Numbers below 1000 have at most three digits. */
  lemma DecimalBelow1000(n: nat)
    requires n < 1000
    ensures |Decimal(n)| <= 3
  {
    if n >= 10 {
      assert |Decimal(n / 10)| <= 2 by {
        if n / 10 >= 10 {
          assert |Decimal(n / 100)| == 1;
        }
      }
    }
  }

  // ---------------------------------------------------------------------
  // Integer.parseInt
  // ---------------------------------------------------------------------

  datatype ParseResult = Parsed(value: Int32) | NumberFormatError

  /** `Integer.parseInt(s)` in radix 10: an optional sign, then at least one
      digit, and a value that fits in an `int`; anything else throws
      NumberFormatException. */
  function ParseInt(s: string): (r: ParseResult)
    ensures r.Parsed? ==> |s| > 0
    ensures |s| > 0 && AllDigits(s) ==>
              (r.Parsed? <==> Value(s) <= IntMax) && (r.Parsed? ==> r.value == Value(s))
    ensures |s| > 1 && s[0] == '-' && AllDigits(s[1..]) ==>
              (r.Parsed? <==> Value(s[1..]) <= -IntMin) && (r.Parsed? ==> r.value == -(Value(s[1..]) as int))
  {
    if |s| == 0 then NumberFormatError
    else if s[0] == '-' || s[0] == '+' then
      if |s| == 1 || !AllDigits(s[1..]) then NumberFormatError
      else
        var m: int := if s[0] == '-' then -(Value(s[1..]) as int) else Value(s[1..]);
        if IntMin <= m <= IntMax then Parsed(m) else NumberFormatError
    else if !AllDigits(s) then NumberFormatError
    else if Value(s) <= IntMax then Parsed(Value(s))
    else NumberFormatError
  }

  /** `parseInt` reads back every non-negative `int` written in decimal. */
  lemma ParseDecimal(n: nat)
    requires n <= IntMax
    ensures ParseInt(Decimal(n)) == Parsed(n)
  {
  }

  // ---------------------------------------------------------------------
  // String.format("%0Nd", v)
  // ---------------------------------------------------------------------

  function Zeros(n: nat): (r: string)
    ensures |r| == n && forall i :: 0 <= i < n ==> r[i] == '0'
  {
    seq(n, _ => '0')
  }

  /** Left-pads `s` with '0' to at least `width` characters. */
  function PadZeros(s: string, width: nat): (r: string)
    ensures |r| == if |s| < width then width else |s|
    ensures r[|r| - |s|..] == s
    ensures forall i :: 0 <= i < |r| - |s| ==> r[i] == '0'
  {
    if |s| < width then Zeros(width - |s|) + s else s
  }

  /** `%0Nd` of `v`: the sign, when negative, then the magnitude zero-padded
      so that sign and digits together take at least `width` characters. */
  function FormatZeroPadded(v: int, width: nat): (r: string)
    requires width >= 1
    ensures v >= 0 ==> |r| >= width && AllDigits(r) && Value(r) == v
    ensures v < 0 ==> |r| >= width && |r| >= 2 && r[0] == '-' && AllDigits(r[1..]) && Value(r[1..]) == -v
    ensures |Decimal(if v < 0 then -v else v)| + (if v < 0 then 1 else 0) <= width ==> |r| == width
  {
    if v >= 0 then
      PaddedValue(Decimal(v), width);
      PadZeros(Decimal(v), width)
    else
      var digits := PadZeros(Decimal(-v), width - 1);
      PaddedValue(Decimal(-v), width - 1);
      var r := "-" + digits;
      assert r[1..] == digits;
      r
  }

  /** Zero padding keeps the value of a numeral. */
  lemma PaddedValue(s: string, width: nat)
    requires AllDigits(s)
    ensures AllDigits(PadZeros(s, width)) && Value(PadZeros(s, width)) == Value(s)
  {
    var r := PadZeros(s, width);
    ValueLeadingZeros(r[..|r| - |s|], s);
    assert r == r[..|r| - |s|] + s;
  }
}
