/**
 The numeric code of an OTP: a draw from `nextInt(1000000)` rendered with
 `String.format("%06d", n)`, i.e. the decimal digits of `n` left-padded with
 '0' to six characters. `ParseDecimal` is the inverse used to state that the
 rendering loses nothing.
 */
module OtpCode {

  /** Exclusive upper bound of the random draw, `nextInt(1000000)`. */
  const OTP_BOUND: nat := 1000000
  /** Minimum width of the `%06d` conversion. */
  const OTP_WIDTH: nat := 6

  predicate IsDigit(c: char) {
    '0' <= c <= '9'
  }

  predicate AllDigits(s: string) {
    forall i :: 0 <= i < |s| ==> IsDigit(s[i])
  }

  function Pow10(k: nat): (p: nat)
    ensures p >= 1
  {
    if k == 0 then 1 else 10 * Pow10(k - 1)
  }

  function DigitChar(d: nat): (c: char)
    requires d < 10
    ensures IsDigit(c) && c as int - '0' as int == d
  {
    ('0' as int + d) as char
  }

  function DigitValue(c: char): (d: nat)
    requires IsDigit(c)
    ensures d < 10 && DigitChar(d) == c
  {
    c as int - '0' as int
  }

  /** The decimal digits of `n`, most significant first, with no leading zero ("0" for zero). */
  function Decimal(n: nat): (s: string)
    ensures 1 <= |s| && AllDigits(s)
    ensures n > 0 ==> s[0] != '0'
    decreases n
  {
    if n < 10 then [DigitChar(n)] else Decimal(n / 10) + [DigitChar(n % 10)]
  }

  /** The number a string of decimal digits denotes (leading zeros allowed). */
  function ParseDecimal(s: string): (n: nat)
    requires AllDigits(s)
    ensures n < Pow10(|s|)
    decreases |s|
  {
    if s == [] then 0 else 10 * ParseDecimal(s[..|s| - 1]) + DigitValue(s[|s| - 1])
  }

  function Zeros(k: nat): (z: string)
    ensures |z| == k && forall i :: 0 <= i < k ==> z[i] == '0'
  {
    seq(k, _ => '0')
  }

  /** `String.format("%0<width>d", n)` for a non-negative `n`: a shorter representation is
      left-padded with '0' up to `width`, a longer one is kept whole. */
  function ZeroPadded(n: nat, width: nat): (s: string)
    ensures |s| == if |Decimal(n)| < width then width else |Decimal(n)|
    ensures s[|s| - |Decimal(n)|..] == Decimal(n)
    ensures forall i :: 0 <= i < |s| - |Decimal(n)| ==> s[i] == '0'
    ensures AllDigits(s)
  {
    var digits := Decimal(n);
    if |digits| < width then Zeros(width - |digits|) + digits else digits
  }

  /** `String.format("%06d", otpNumber)`, under a default format locale whose digits are '0'..'9'. */
  function FormatOtp(n: nat): (code: string)
    ensures AllDigits(code) && OTP_WIDTH <= |code|
  {
    ZeroPadded(n, OTP_WIDTH)
  }

  lemma Pow10Width()
    ensures Pow10(OTP_WIDTH) == OTP_BOUND
  {
  }

  /** Reading back the digits of `n` gives `n`. */
  lemma {:induction false} ParseDecimalOfDecimal(n: nat)
    ensures ParseDecimal(Decimal(n)) == n
    decreases n
  {
    var s := Decimal(n);
    if n >= 10 {
      ParseDecimalOfDecimal(n / 10);
      assert s[..|s| - 1] == Decimal(n / 10);
    } else {
      assert s[..|s| - 1] == [];
    }
  }

  lemma {:induction false} ParseZeros(z: string)
    requires forall i :: 0 <= i < |z| ==> z[i] == '0'
    ensures AllDigits(z) && ParseDecimal(z) == 0
    decreases |z|
  {
    if z != [] {
      ParseZeros(z[..|z| - 1]);
    }
  }

  /** Leading zeros do not change the number denoted. */
  lemma {:induction false} ParseLeadingZeros(z: string, s: string)
    requires forall i :: 0 <= i < |z| ==> z[i] == '0'
    requires AllDigits(s)
    ensures AllDigits(z + s) && ParseDecimal(z + s) == ParseDecimal(s)
    decreases |s|
  {
    if s == [] {
      assert z + s == z;
      ParseZeros(z);
    } else {
      var init := s[..|s| - 1];
      ParseLeadingZeros(z, init);
      assert (z + s)[..|z + s| - 1] == z + init;
    }
  }

  /** `n` needs at most `k` digits exactly when it is below 10^k. */
  lemma {:induction false} DecimalLength(n: nat, k: nat)
    requires 1 <= k
    ensures |Decimal(n)| <= k <==> n < Pow10(k)
    decreases n
  {
    if n < 10 {
      Pow10AtLeastTen(k);
    } else if k == 1 {
      assert Pow10(1) == 10;
    } else {
      DecimalLength(n / 10, k - 1);
      assert n / 10 < Pow10(k - 1) <==> n < 10 * Pow10(k - 1);
    }
  }

  lemma {:induction false} Pow10AtLeastTen(k: nat)
    requires 1 <= k
    ensures Pow10(k) >= 10
    decreases k
  {
    if k > 1 {
      Pow10AtLeastTen(k - 1);
    }
  }

  /** Every draw of `nextInt(1000000)`, and only such a number, renders as exactly six digits. */
  lemma FormatOtpWidth(n: nat)
    ensures |FormatOtp(n)| == OTP_WIDTH <==> n < OTP_BOUND
  {
    DecimalLength(n, OTP_WIDTH);
    Pow10Width();
  }

  /** The rendered code denotes the draw it came from. */
  lemma FormatOtpRoundTrip(n: nat)
    ensures ParseDecimal(FormatOtp(n)) == n
  {
    var digits := Decimal(n);
    ParseDecimalOfDecimal(n);
    if |digits| < OTP_WIDTH {
      ParseLeadingZeros(Zeros(OTP_WIDTH - |digits|), digits);
    }
  }

  /** Distinct draws give distinct codes. */
  lemma FormatOtpInjective(a: nat, b: nat)
    requires FormatOtp(a) == FormatOtp(b)
    ensures a == b
  {
    FormatOtpRoundTrip(a);
    FormatOtpRoundTrip(b);
  }
}
