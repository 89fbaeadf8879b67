/**
 * Decimal text of integers as the Java runtime writes and reads it:
 * Integer.toString, Integer.parseInt (ASCII digits), the literal accepted by
 * new Double(...) restricted to integral literals, the (int) cast of a double,
 * and Double.toString of an integral value outside the int range.
 */
module Decimal {
  import opened Wrappers

  const Int32Min: int := -0x8000_0000
  const Int32Max: int := 0x7FFF_FFFF

  predicate IsDigit(c: char) {
    '0' <= c <= '9'
  }

  predicate AllDigits(s: string) {
    forall k | 0 <= k < |s| :: IsDigit(s[k])
  }

  function DigitChar(d: nat): (c: char)
    requires d < 10
    ensures IsDigit(c) && c as int - '0' as int == d
  {
    ('0' as int + d) as char
  }

  function DigitValue(c: char): (d: nat)
    requires IsDigit(c)
    ensures d < 10 && DigitChar(d) == c
  {
    c as int - '0' as int
  }

  /** Integer.toString of a non-negative value: digits, most significant first, no leading zero. */
  function NatToString(n: nat): (s: string)
    ensures |s| > 0 && AllDigits(s)
    ensures s[0] == '0' ==> n == 0
    decreases n
  {
    if n < 10 then [DigitChar(n)] else NatToString(n / 10) + [DigitChar(n % 10)]
  }

  /** Integer.toString: a minus sign for negative values, then the digits of the magnitude. */
  function IntToString(n: int): (s: string)
    ensures ParseDecimal(s) == Some(n)
  {
    if n < 0 then
      var digits := NatToString(-n);
      DigitsValueOfNatToString(-n);
      assert ("-" + digits)[1..] == digits;
      "-" + digits
    else
      DigitsValueOfNatToString(n);
      NatToString(n)
  }

  /** The value of a string of decimal digits (the empty string has value 0). */
  function DigitsValue(s: string): nat
    requires AllDigits(s)
    decreases |s|
  {
    if s == [] then 0 else DigitsValue(s[..|s| - 1]) * 10 + DigitValue(s[|s| - 1])
  }

  lemma {:induction false} DigitsValueOfNatToString(n: nat)
    ensures DigitsValue(NatToString(n)) == n
    decreases n
  {
    if n >= 10 {
      var s := NatToString(n / 10);
      var t := s + [DigitChar(n % 10)];
      assert t[..|t| - 1] == s;
      DigitsValueOfNatToString(n / 10);
    }
  }

  lemma NatToStringInjective(a: nat, b: nat)
    requires NatToString(a) == NatToString(b)
    ensures a == b
  {
    DigitsValueOfNatToString(a);
    DigitsValueOfNatToString(b);
  }

  /** A signed decimal literal: an optional '+' or '-' followed by at least one ASCII digit. */
  function ParseDecimal(s: string): (r: Option<int>)
    ensures r.Some? <==> (|s| > 0 && AllDigits(s)) || (|s| > 1 && (s[0] == '-' || s[0] == '+') && AllDigits(s[1..]))
  {
    if |s| > 0 && (s[0] == '-' || s[0] == '+') then
      if |s| > 1 && AllDigits(s[1..]) then
        var magnitude: int := DigitsValue(s[1..]);
        Some(if s[0] == '-' then -magnitude else magnitude)
      else
        None
    else if |s| > 0 && AllDigits(s) then
      Some(DigitsValue(s))
    else
      None
  }

  /** Integer.parseInt(s): a signed decimal literal whose value fits in 32 bits. */
  function ParseInt(s: string): (r: Option<int>)
    ensures r.Some? <==> ParseDecimal(s).Some? && Int32Min <= ParseDecimal(s).value <= Int32Max
    ensures r.Some? ==> r == ParseDecimal(s)
  {
    match ParseDecimal(s)
    case Some(v) => if Int32Min <= v <= Int32Max then Some(v) else None
    case None => None
  }

  lemma ParseIntOfIntToString(n: int)
    ensures ParseInt(IntToString(n)) == if Int32Min <= n <= Int32Max then Some(n) else None
  {
  }

  /** The position of the first c in s, or |s| when there is none. */
  function IndexOf(s: string, c: char): (k: nat)
    ensures k <= |s| && (k < |s| ==> s[k] == c) && forall i | 0 <= i < k :: s[i] != c
    decreases |s|
  {
    if s == [] then 0 else if s[0] == c then 0 else 1 + IndexOf(s[1..], c)
  }

  /** In p, c, x with no c in p, the first c is the separator. */
  lemma IndexOfSeparator(p: string, c: char, x: string)
    requires forall i | 0 <= i < |p| :: p[i] != c
    ensures IndexOf(p + [c] + x, c) == |p|
  {
    var t := p + [c] + x;
    assert t[|p|] == c;
    assert forall i | 0 <= i < |p| :: t[i] == p[i];
  }

  /** Characters String.trim() removes at either end: code points up to and including the space. */
  predicate IsTrimmed(c: char) {
    c as int <= ' ' as int
  }

  /** The number of leading characters String.trim() removes. */
  function LeadingTrimmed(s: string): (n: nat)
    ensures n <= |s| && (forall k | 0 <= k < n :: IsTrimmed(s[k])) && (n < |s| ==> !IsTrimmed(s[n]))
    decreases |s|
  {
    if s != [] && IsTrimmed(s[0]) then 1 + LeadingTrimmed(s[1..]) else 0
  }

  /** The length that remains once String.trim() removes the trailing characters. */
  function UntrimmedLength(s: string): (n: nat)
    ensures n <= |s| && (forall k | n <= k < |s| :: IsTrimmed(s[k])) && (n > 0 ==> !IsTrimmed(s[n - 1]))
    decreases |s|
  {
    if s != [] && IsTrimmed(s[|s| - 1]) then UntrimmedLength(s[..|s| - 1]) else |s|
  }

  /** String.trim(): the input without its leading and trailing characters up to the space. */
  function Trim(s: string): (r: string)
    ensures r != [] ==> !IsTrimmed(r[0]) && !IsTrimmed(r[|r| - 1])
    ensures s != [] && !IsTrimmed(s[0]) && !IsTrimmed(s[|s| - 1]) ==> r == s
  {
    var t := s[LeadingTrimmed(s)..];
    assert s != [] && !IsTrimmed(s[0]) ==> t == s;
    t[..UntrimmedLength(t)]
  }

  /**
   * new Double(s) / Double.parseDouble(s) on a literal with an integral value:
   * surrounding blanks are trimmed, then a signed decimal literal is read.
   */
  function ParseNumberLiteral(s: string): (r: Option<int>)
    ensures s != [] && !IsTrimmed(s[0]) && !IsTrimmed(s[|s| - 1]) ==> r == ParseDecimal(s)
  {
    ParseDecimal(Trim(s))
  }

  /** The (int) cast of a Java double holding an integer: saturates at the 32-bit bounds. */
  function IntValue(v: int): (r: int)
    ensures Int32Min <= r <= Int32Max
    ensures Int32Min <= v <= Int32Max ==> r == v
    ensures v < Int32Min ==> r == Int32Min
    ensures v > Int32Max ==> r == Int32Max
  {
    if v < Int32Min then Int32Min else if v > Int32Max then Int32Max else v
  }
}

/**
 * Double.toString of an integral double whose magnitude is at least 10^7, the
 * range where Java writes "computerized scientific notation": one digit, a
 * point, the remaining significant digits (at least one), 'E' and the exponent.
 */
module Scientific {
  import opened Wrappers
  import opened Decimal

  function Pow10(e: nat): nat {
    if e == 0 then 1 else 10 * Pow10(e - 1)
  }

  /** The value of the digits of v followed by k zeros. */
  function Scale(v: nat, k: nat): nat {
    if k == 0 then v else 10 * Scale(v, k - 1)
  }

  /** The digits that remain once the trailing zeros are dropped. */
  function StripTrailingZeros(s: string): (m: string)
    ensures |m| <= |s| && m == s[..|m|]
    ensures forall k | |m| <= k < |s| :: s[k] == '0'
    ensures m != [] ==> m[|m| - 1] != '0'
    decreases |s|
  {
    if s != [] && s[|s| - 1] == '0' then StripTrailingZeros(s[..|s| - 1]) else s
  }

  predicate LargeMagnitude(v: int) {
    v <= -10_000_000 || 10_000_000 <= v
  }

  function Magnitude(v: int): nat {
    if v < 0 then -v else v
  }

  /** The significant digits of a non-zero magnitude. */
  function Significand(n: nat): (m: string)
    requires n > 0
    ensures m != [] && AllDigits(m) && |m| <= |NatToString(n)| && m == NatToString(n)[..|m|]
  {
    var digits := NatToString(n);
    var m := StripTrailingZeros(digits);
    assert digits[0] != '0';
    m
  }

  /** The digits written after the point: the significant digits but the first, or "0". */
  function Fraction(m: string): string
    requires m != []
  {
    if |m| == 1 then "0" else m[1..]
  }

  /** Double.toString of an integral n of at least 10^7. */
  function UnsignedDoubleText(n: nat): (s: string)
    requires n >= 10_000_000
  {
    var m := Significand(n);
    [m[0]] + "." + Fraction(m) + "E" + NatToString(|NatToString(n)| - 1)
  }

  /** Double.toString(v) for an integral v with |v| at least 10^7. */
  function DoubleText(v: int): (s: string)
    requires LargeMagnitude(v)
  {
    (if v < 0 then "-" else "") + UnsignedDoubleText(Magnitude(v))
  }

  /**
   * The integral value of an unsigned "D.FFFE<x>" text; None when the text has
   * another shape or denotes a non-integral value.
   */
  function ParseUnsignedScientific(t: string): (r: Option<nat>)
  {
    var e := IndexOf(t, 'E');
    if 3 <= e < |t| - 1 && t[1] == '.' then ScientificValue(t[0], t[2..e], t[e + 1..]) else None
  }

  /** The value of d.frac times ten to the x: a whole number only when the exponent covers the fraction. */
  function ScientificValue(d: char, frac: string, x: string): Option<nat> {
    if IsDigit(d) && AllDigits(frac) && AllDigits(x) then
      var exponent := DigitsValue(x);
      if exponent >= |frac| then Some(Scale(DigitsValue([d] + frac), exponent - |frac|)) else None
    else
      None
  }

  /** The integral value of a text in Java's scientific notation, with an optional minus sign. */
  function ParseScientific(s: string): (r: Option<int>)
  {
    if s != [] && s[0] == '-' then
      match ParseUnsignedScientific(s[1..])
      case Some(n) => var k: int := n; Some(-k)
      case None => None
    else
      match ParseUnsignedScientific(s)
      case Some(n) => Some(n)
      case None => None
  }

  lemma {:induction false} StripTrailingZerosValue(s: string)
    requires AllDigits(s)
    ensures DigitsValue(s) == Scale(DigitsValue(StripTrailingZeros(s)), |s| - |StripTrailingZeros(s)|)
    decreases |s|
  {
    if s != [] && s[|s| - 1] == '0' {
      var t := s[..|s| - 1];
      StripTrailingZerosValue(t);
      assert DigitsValue(s) == 10 * DigitsValue(t);
    }
  }

  lemma {:induction false} NatToStringLength(n: nat, k: nat)
    requires n >= Pow10(k)
    ensures |NatToString(n)| > k
    decreases k
  {
    if k > 0 {
      NatToStringLength(n / 10, k - 1);
    }
  }

  /** One more zero on the digits is one more zero on the scale. */
  lemma {:induction false} ScaleShift(v: nat, k: nat)
    ensures Scale(10 * v, k) == Scale(v, k + 1)
    decreases k
  {
    if k > 0 {
      ScaleShift(v, k - 1);
    }
  }

  /** A one-digit significand is written with the fraction "0", which costs one power of ten. */
  lemma SingleDigitScale(m: string, e: nat, n: nat)
    requires |m| == 1 && AllDigits(m) && e >= 1 && n == Scale(DigitsValue(m), e)
    ensures Scale(DigitsValue([m[0]] + "0"), e - 1) == n
  {
    var w := [m[0]] + "0";
    assert w[..1] == m;
    assert DigitsValue(w) == 10 * DigitsValue(m);
    ScaleShift(DigitsValue(m), e - 1);
  }

  /** n is its significand scaled by the power of ten of the stripped zeros. */
  lemma SignificandScale(n: nat)
    requires n >= 10_000_000
    ensures |NatToString(n)| > 7
    ensures n == Scale(DigitsValue(Significand(n)), |NatToString(n)| - |Significand(n)|)
  {
    var digits := NatToString(n);
    assert Pow10(7) == 10_000_000;
    NatToStringLength(n, 7);
    StripTrailingZerosValue(digits);
    DigitsValueOfNatToString(n);
  }

  /** Moving the point after the first digit of the significand m of an L-digit n. */
  lemma SignificandShift(m: string, len: nat, n: nat)
    requires m != [] && AllDigits(m) && |m| <= len && len > 7
    requires n == Scale(DigitsValue(m), len - |m|)
    ensures len - 1 >= |Fraction(m)|
    ensures Scale(DigitsValue([m[0]] + Fraction(m)), len - 1 - |Fraction(m)|) == n
  {
    if |m| == 1 {
      SingleDigitScale(m, len - 1, n);
    } else {
      assert [m[0]] + m[1..] == m;
    }
  }

  lemma SignificandValue(n: nat)
    requires n >= 10_000_000
    ensures var m := Significand(n); var frac := Fraction(m);
      |NatToString(n)| - 1 >= |frac| &&
      Scale(DigitsValue([m[0]] + frac), |NatToString(n)| - 1 - |frac|) == n
  {
    SignificandScale(n);
    SignificandShift(Significand(n), |NatToString(n)|, n);
  }

  /** Where the parts of a digit, '.', a fraction, 'E' and an exponent sit. */
  lemma ScientificParts(d: char, frac: string, x: string)
    requires IsDigit(d) && frac != [] && AllDigits(frac)
    ensures var t := [d] + "." + frac + "E" + x;
      && |t| == |frac| + 3 + |x|
      && IndexOf(t, 'E') == |frac| + 2
      && t[0] == d && t[1] == '.'
      && t[2..|frac| + 2] == frac && t[|frac| + 3..] == x
  {
    var p := [d] + "." + frac;
    var t := p + "E" + x;
    assert IndexOf(t, 'E') == |p| by {
      forall i | 0 <= i < |p| ensures p[i] != 'E' {
        if i >= 2 { assert p[i] == frac[i - 2]; }
      }
      IndexOfSeparator(p, 'E', x);
    }
    assert t[..|p|] == p;
    assert p[2..] == frac;
  }

  /** How a digit, '.', a fraction, 'E' and an exponent read back. */
  lemma ParseUnsignedScientificShape(d: char, frac: string, x: string)
    requires IsDigit(d) && frac != [] && AllDigits(frac) && x != []
    ensures ParseUnsignedScientific([d] + "." + frac + "E" + x) == ScientificValue(d, frac, x)
  {
    ScientificParts(d, frac, x);
  }

  /** The significand, its fraction and the digit count of n make up n again. */
  lemma ScientificValueOfSignificand(n: nat)
    requires n >= 10_000_000
    ensures var m := Significand(n);
      ScientificValue(m[0], Fraction(m), NatToString(|NatToString(n)| - 1)) == Some(n)
  {
    var m := Significand(n);
    var frac := Fraction(m);
    var exponent := |NatToString(n)| - 1;
    var x := NatToString(exponent);
    assert IsDigit(m[0]) && AllDigits(frac) && AllDigits(x);
    DigitsValueOfNatToString(exponent);
    SignificandValue(n);
    assert DigitsValue(x) == exponent && exponent >= |frac|;
    assert Scale(DigitsValue([m[0]] + frac), exponent - |frac|) == n;
  }

  lemma UnsignedDoubleTextRoundTrip(n: nat)
    requires n >= 10_000_000
    ensures ParseUnsignedScientific(UnsignedDoubleText(n)) == Some(n)
    ensures |UnsignedDoubleText(n)| > 1 && UnsignedDoubleText(n)[1] == '.'
  {
    var m := Significand(n);
    var frac := Fraction(m);
    var x := NatToString(|NatToString(n)| - 1);
    assert IsDigit(m[0]) && frac != [] && AllDigits(frac);
    ScientificParts(m[0], frac, x);
    ParseUnsignedScientificShape(m[0], frac, x);
    ScientificValueOfSignificand(n);
  }

  /** Reading DoubleText back gives the value that was written; it is never a plain integer literal. */
  lemma DoubleTextRoundTrip(v: int)
    requires LargeMagnitude(v)
    ensures ParseScientific(DoubleText(v)) == Some(v)
    ensures ParseDecimal(DoubleText(v)) == None
  {
    var t := UnsignedDoubleText(Magnitude(v));
    var s := DoubleText(v);
    UnsignedDoubleTextRoundTrip(Magnitude(v));
    if v < 0 {
      assert s[1..] == t;
      assert !IsDigit(s[2]);
    } else {
      assert s == t;
      assert !IsDigit(s[1]);
    }
  }
}
