/// Decimal rendering of integers, as the `fmt` library does it for the
/// format specs "{}" and "{:0Nd}": the minimal digit string, and that string
/// padded with zeros after the sign to at least N characters.
module Decimal {

  predicate IsDigit(c: char) {
    '0' <= c <= '9'
  }

  predicate AllDigits(s: string) {
    forall i :: 0 <= i < |s| ==> IsDigit(s[i])
  }

  function DigitChar(d: nat): (c: char)
    requires d < 10
    ensures IsDigit(c)
  {
    ('0' as int + d) as char
  }

  /** "{}" of a non-negative integer: its digits, most significant first. */
  function Digits(n: nat): string
    decreases n
  {
    if n < 10 then [DigitChar(n)] else Digits(n / 10) + [DigitChar(n % 10)]
  }

  /** The number a digit string denotes (leading zeros allowed). */
  function DecimalValue(s: string): int {
    if s == [] then 0
    else DecimalValue(s[..|s| - 1]) * 10 + (s[|s| - 1] as int - '0' as int)
  }

  function Zeros(k: nat): (z: string)
    ensures |z| == k && AllDigits(z)
    ensures forall i :: 0 <= i < k ==> z[i] == '0'
  {
    seq(k, _ => '0')
  }

  /** `s` with zeros in front, up to at least `width` characters. */
  function PadLeft(s: string, width: int): string {
    if |s| < width then Zeros(width - |s|) + s else s
  }

  /** "{:0Nd}" with N = `width`: a minus sign for a negative value, then the
      digits of the magnitude, with zeros between the sign and the digits so
      that the whole is at least `width` characters long. */
  function ZeroPadded(n: int, width: nat): string {
    if n < 0 then "-" + PadLeft(Digits(-n), width - 1) else PadLeft(Digits(n), width)
  }

  /** The number a rendering of `ZeroPadded` denotes. */
  function SignedValue(s: string): int {
    if s != [] && s[0] == '-' then -DecimalValue(s[1..]) else DecimalValue(s)
  }

  // ---------------------------------------------------------------------
  // Properties
  // ---------------------------------------------------------------------

  /** Round trip: the digits of `n` are digits, denote `n`, and have no
      leading zero unless `n` is 0. */
  lemma {:induction false} DigitsRoundTrip(n: nat)
    ensures Digits(n) != [] && AllDigits(Digits(n))
    ensures DecimalValue(Digits(n)) == n
    ensures Digits(n)[0] == '0' ==> n == 0
    decreases n
  {
    if n >= 10 {
      DigitsRoundTrip(n / 10);
      var s := Digits(n);
      assert s[..|s| - 1] == Digits(n / 10);
    }
  }

  /** Zeros in front do not change the value of a digit string. */
  lemma {:induction false} LeadingZerosValue(k: nat, s: string)
    requires AllDigits(s)
    ensures AllDigits(Zeros(k) + s)
    ensures DecimalValue(Zeros(k) + s) == DecimalValue(s)
    decreases |s|
  {
    var z := Zeros(k) + s;
    if s == [] {
      assert z == Zeros(k);
      ZerosValue(k);
    } else {
      assert z[..|z| - 1] == Zeros(k) + s[..|s| - 1];
      LeadingZerosValue(k, s[..|s| - 1]);
    }
  }

  lemma {:induction false} ZerosValue(k: nat)
    ensures DecimalValue(Zeros(k)) == 0
  {
    if k > 0 {
      assert Zeros(k)[..k - 1] == Zeros(k - 1);
      ZerosValue(k - 1);
    }
  }

  /** Round trip for the padded form: it is at least `width` characters
      long, is exactly as long as the unpadded form when that is already wide
      enough, is a digit string (after a minus sign when `n < 0`), and
      denotes `n`. */
  lemma ZeroPaddedRoundTrip(n: int, width: nat)
    ensures |ZeroPadded(n, width)| >= width
    ensures |ZeroPadded(n, width)| == if width > |ZeroPadded(n, 0)| then width else |ZeroPadded(n, 0)|
    ensures ZeroPadded(n, width) != []
    ensures n >= 0 ==> AllDigits(ZeroPadded(n, width))
    ensures n < 0 ==> ZeroPadded(n, width)[0] == '-' && AllDigits(ZeroPadded(n, width)[1..])
    ensures SignedValue(ZeroPadded(n, width)) == n
  {
    var m: nat := if n < 0 then -n else n;
    DigitsRoundTrip(m);
    var d := Digits(m);
    var w := if n < 0 then width - 1 else width;
    var p := PadLeft(d, w);
    if |d| < w {
      LeadingZerosValue(w - |d|, d);
    }
    assert AllDigits(p) && DecimalValue(p) == m;
    if n < 0 {
      assert ZeroPadded(n, width) == "-" + p;
      assert ("-" + p)[1..] == p;
    }
  }

  /** The widths used for calendar fields: a year that already has four
      digits is not padded ... */
  lemma ZeroPaddedYears()
    ensures ZeroPadded(2025, 4) == "2025"
    ensures ZeroPadded(1900, 4) == "1900"
  {
    assert Digits(2025) == Digits(202) + "5";
    assert Digits(202) == Digits(20) + "2";
    assert Digits(1900) == Digits(190) + "0";
    assert Digits(190) == Digits(19) + "0";
  }

  /** ... and small values are padded with zeros after the sign. */
  lemma ZeroPaddedSmall()
    ensures ZeroPadded(7, 2) == "07"
    ensures ZeroPadded(1, 2) == "01"
    ensures ZeroPadded(0, 2) == "00"
    ensures ZeroPadded(-5, 4) == "-005"
  {
  }
}
