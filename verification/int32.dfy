/** Decimal text to 32-bit integer, as `Int32.TryParse(s, out n)` and
    `Convert.ToInt32(s)` do it under the default `NumberStyles.Integer`:
    optional surrounding white space, an optional leading sign, at least one
    decimal digit, and a value inside the `int` range.  Both .NET entry points
    accept exactly the same strings, so one parser serves both; the failure
    that `Convert.ToInt32` reports by throwing is `None` here. */
module Int32Text {
  import opened Base
  import opened Text

  const INT32_MIN: int := -0x8000_0000
  const INT32_MAX: int := 0x7fff_ffff

  predicate InInt32(n: int) { INT32_MIN <= n <= INT32_MAX }

  predicate IsDigit(c: char) { '0' <= c <= '9' }

  predicate AllDigits(s: string) { forall k :: 0 <= k < |s| ==> IsDigit(s[k]) }

  /** The value of a digit string, most significant digit first. */
  function DigitsValue(s: string): nat
    requires AllDigits(s)
  {
    if |s| == 0 then 0
    else DigitsValue(s[..|s| - 1]) * 10 + (s[|s| - 1] as int - '0' as int)
  }

  /** The numeral once surrounding white space is gone: an optional sign and
      at least one digit, with a value inside the 32-bit range. */
  function ParseSigned(t: string): (r: Option<int>)
    ensures r.Some? ==> InInt32(r.value)
  {
    var negative := |t| > 0 && t[0] == '-';
    var digits := if |t| > 0 && (t[0] == '-' || t[0] == '+') then t[1..] else t;
    if |digits| == 0 || !AllDigits(digits) then None
    else
      var magnitude: int := DigitsValue(digits);
      var n := if negative then -magnitude else magnitude;
      if InInt32(n) then Some(n) else None
  }

  /** `Int32.TryParse`: `Some(n)` exactly when the text is a well-formed decimal
      integer inside the 32-bit range. */
  function ParseInt32(s: string): (r: Option<int>)
    ensures r.Some? ==> InInt32(r.value)
  {
    ParseSigned(Trim(s))
  }

  // ---------------------------------------------------------------------
  // The inverse: Int32.ToString()
  // ---------------------------------------------------------------------

  function DigitChar(d: nat): char
    requires d < 10
  {
    ('0' as int + d) as char
  }

  /** Shortest decimal digits of a natural number. */
  function FormatNat(n: nat): (r: string)
    ensures |r| > 0 && AllDigits(r)
  {
    if n < 10 then [DigitChar(n)] else FormatNat(n / 10) + [DigitChar(n % 10)]
  }

  /** `n.ToString()` in the invariant culture. */
  function FormatInt(n: int): (r: string)
    ensures |r| > 0
  {
    if n < 0 then "-" + FormatNat(-n) else FormatNat(n)
  }

  /** A printed integer is digits after an optional minus sign. */
  lemma FormatIntShape(n: int)
    ensures var r := FormatInt(n);
            && (forall k :: 0 <= k < |r| ==> IsDigit(r[k]) || r[k] == '-')
            && (IsDigit(r[0]) || r[0] == '-') && IsDigit(r[|r| - 1])
  {
  }

  lemma {:induction false} FormatNatValue(n: nat)
    ensures DigitsValue(FormatNat(n)) == n
  {
    var s := FormatNat(n);
    if n >= 10 {
      assert s[..|s| - 1] == FormatNat(n / 10);
      FormatNatValue(n / 10);
    }
  }

  predicate AllZeros(s: string) { forall k :: 0 <= k < |s| ==> s[k] == '0' }

  lemma {:induction false} ZerosValue(zeros: string)
    requires AllZeros(zeros)
    ensures AllDigits(zeros) && DigitsValue(zeros) == 0
    decreases |zeros|
  {
    if |zeros| > 0 {
      ZerosValue(zeros[..|zeros| - 1]);
    }
  }

  /** Leading zeros do not change the value of a digit string. */
  lemma {:induction false} LeadingZerosValue(zeros: string, ds: string)
    requires AllZeros(zeros) && AllDigits(ds)
    ensures AllDigits(zeros + ds) && DigitsValue(zeros + ds) == DigitsValue(ds)
    decreases |ds|
  {
    ZerosValue(zeros);
    if |ds| == 0 {
      assert zeros + ds == zeros;
    } else {
      var init := ds[..|ds| - 1];
      LeadingZerosValue(zeros, init);
      assert (zeros + ds)[..|zeros + ds| - 1] == zeros + init;
    }
  }

  /** A value kept when it fits in 32 bits, a failure otherwise. */
  function Checked(n: int): (r: Option<int>)
    ensures r.Some? <==> InInt32(n)
    ensures r.Some? ==> r.value == n
  {
    if InInt32(n) then Some(n) else None
  }

  lemma ParseUnsigned(digits: string)
    requires |digits| > 0 && AllDigits(digits)
    ensures ParseSigned(digits) == Checked(DigitsValue(digits))
  {
    assert IsDigit(digits[0]);
  }

  lemma ParseMinus(digits: string)
    requires |digits| > 0 && AllDigits(digits)
    ensures ParseSigned("-" + digits) == Checked(-(DigitsValue(digits) as int))
  {
    assert ("-" + digits)[1..] == digits;
  }

  lemma ParsePlus(digits: string)
    requires |digits| > 0 && AllDigits(digits)
    ensures ParseSigned("+" + digits) == Checked(DigitsValue(digits))
  {
    assert ("+" + digits)[1..] == digits;
  }

  predicate IsSign(sign: string) { sign == "" || sign == "+" || sign == "-" }

  /** Leading zeros before a printed number leave its value. */
  lemma ZerosThenNumber(zeros: string, m: nat)
    requires AllZeros(zeros)
    ensures var digits := zeros + FormatNat(m);
            |digits| > 0 && AllDigits(digits) && DigitsValue(digits) == m
  {
    LeadingZerosValue(zeros, FormatNat(m));
    FormatNatValue(m);
  }

  /** An optional sign followed by digits reads as the signed value of the
      digits, or fails when that does not fit in 32 bits. */
  lemma {:induction false} ParseSignedDigits(sign: string, digits: string)
    requires |digits| > 0 && AllDigits(digits) && IsSign(sign)
    ensures ParseSigned(sign + digits) ==
              Checked(if sign == "-" then -(DigitsValue(digits) as int) else DigitsValue(digits))
  {
    if sign == "" {
      assert sign + digits == digits;
      ParseUnsigned(digits);
    } else if sign == "-" {
      ParseMinus(digits);
    } else {
      ParsePlus(digits);
    }
  }

  /** A sign, leading zeros and digits read as the signed value of the
      digits, or fail when that does not fit in 32 bits. */
  lemma ParseSignedZeros(sign: string, zeros: string, m: nat)
    requires AllZeros(zeros) && IsSign(sign)
    ensures ParseSigned(sign + zeros + FormatNat(m)) == Checked(if sign == "-" then -(m as int) else m)
  {
    var digits := zeros + FormatNat(m);
    ZerosThenNumber(zeros, m);
    assert sign + zeros + FormatNat(m) == sign + digits;
    ParseSignedDigits(sign, digits);
  }

  /** A numeral neither starts nor ends with white space. */
  lemma NumeralEnds(sign: string, zeros: string, m: nat)
    requires AllZeros(zeros) && IsSign(sign)
    ensures var core := sign + zeros + FormatNat(m);
            |core| > 0 && !IsWhite(core[0]) && !IsWhite(core[|core| - 1])
  {
    var ds := FormatNat(m);
    var core := sign + zeros + ds;
    assert core[|core| - 1] == ds[|ds| - 1];
    if sign == "" && |zeros| == 0 { assert core[0] == ds[0]; }
  }

  /** The value of a numeral written with surrounding white space, an optional
      sign and leading zeros: the signed value of its digits when it fits in
      32 bits, and a failure when it does not. */
  lemma ParsePadded(w1: string, sign: string, zeros: string, m: nat, w2: string)
    requires AllWhite(w1) && AllWhite(w2) && AllZeros(zeros) && IsSign(sign)
    ensures ParseInt32(w1 + (sign + zeros + FormatNat(m)) + w2) == Checked(if sign == "-" then -(m as int) else m)
  {
    NumeralEnds(sign, zeros, m);
    TrimPadded(w1, sign + zeros + FormatNat(m), w2);
    ParseSignedZeros(sign, zeros, m);
  }

  /** `t` is an optional sign followed by at least one digit. */
  predicate IsNumeral(t: string, sign: string, digits: string)
  {
    IsSign(sign) && |digits| > 0 && AllDigits(digits) && t == sign + digits
  }

  /** The signed value a numeral denotes. */
  function NumeralValue(sign: string, digits: string): int
    requires AllDigits(digits)
  {
    if sign == "-" then -(DigitsValue(digits) as int) else DigitsValue(digits)
  }

  /** Only a numeral parses once white space is gone, and it parses to its
      signed value. */
  lemma ParseSignedShape(t: string)
    requires ParseSigned(t).Some?
    ensures exists sign, digits :: IsNumeral(t, sign, digits) && ParseSigned(t).value == NumeralValue(sign, digits)
  {
    if t[0] == '-' || t[0] == '+' {
      var sign := [t[0]];
      assert t == sign + t[1..];
      assert IsNumeral(t, sign, t[1..]);
    } else {
      assert t == "" + t;
      assert IsNumeral(t, "", t);
    }
  }

  /** `s` is a numeral with white space on either side. */
  predicate IsPaddedNumeral(s: string, w1: string, sign: string, digits: string, w2: string)
  {
    AllWhite(w1) && AllWhite(w2) && IsSign(sign) && |digits| > 0 && AllDigits(digits)
    && s == w1 + (sign + digits) + w2
  }

  /** The converse of `ParsePadded`: only a numeral with surrounding white
      space parses, and it parses to its signed value. */
  lemma ParseInt32Shape(s: string)
    requires ParseInt32(s).Some?
    ensures exists w1, sign, digits, w2 :: IsPaddedNumeral(s, w1, sign, digits, w2)
              && ParseInt32(s).value == NumeralValue(sign, digits)
  {
    var t := Trim(s);
    TrimSpec(s);
    var i :| TrimmedAt(s, t, i);
    ParseSignedShape(t);
    var sign, digits :| IsNumeral(t, sign, digits) && ParseSigned(t).value == NumeralValue(sign, digits);
    PadAround(s, t, i, sign, digits);
  }

  /** Cutting `s` around a trimmed numeral leaves white space on either side. */
  lemma PadAround(s: string, t: string, i: int, sign: string, digits: string)
    requires TrimmedAt(s, t, i) && IsNumeral(t, sign, digits)
    ensures IsPaddedNumeral(s, s[..i], sign, digits, s[i + |t|..])
  {
    assert s == s[..i] + t + s[i + |t|..];
  }

  /** A padded numeral is not blank: its first digit is not white space. */
  lemma PaddedNumeralNotBlank(s: string, w1: string, sign: string, digits: string, w2: string)
    requires IsPaddedNumeral(s, w1, sign, digits, w2)
    ensures !AllWhite(s)
  {
    assert s[|w1| + |sign|] == digits[0];
  }

  /** Text made only of white space, the empty text included, never parses. */
  lemma BlankDoesNotParse(s: string)
    requires AllWhite(s)
    ensures ParseInt32(s).None?
  {
    if ParseInt32(s).Some? {
      ParseInt32Shape(s);
      var w1, sign, digits, w2 :| IsPaddedNumeral(s, w1, sign, digits, w2)
                                  && ParseInt32(s).value == NumeralValue(sign, digits);
      PaddedNumeralNotBlank(s, w1, sign, digits, w2);
      assert false;
    }
  }

  /** A printed integer parses back to itself exactly when it fits in 32 bits. */
  lemma ParseFormat(n: int)
    ensures ParseInt32(FormatInt(n)) == Checked(n)
  {
    var m: nat := if n < 0 then -n else n;
    var ds := FormatNat(m);
    FormatNatValue(m);
    FormatIntShape(n);
    TrimNoop(FormatInt(n));
    if n < 0 {
      ParseMinus(ds);
    } else {
      ParseUnsigned(ds);
    }
  }

  /** Every 32-bit integer survives printing and parsing back. */
  lemma ParseFormatRoundTrip(n: int)
    requires InInt32(n)
    ensures ParseInt32(FormatInt(n)) == Some(n)
  {
    ParseFormat(n);
  }

  /** A printed integer outside the 32-bit range is rejected: the overflow on
      which `Convert.ToInt32` throws. */
  lemma FormatOutOfRange(n: int)
    requires !InInt32(n)
    ensures ParseInt32(FormatInt(n)).None?
  {
    ParseFormat(n);
  }
}
