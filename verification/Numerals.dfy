/** Decimal numerals. */
module Numerals {
  function Digits(n: nat): string {
    var last := [('0' as int + n % 10) as char];
    if n < 10 then last else Digits(n / 10) + last
  }

  predicate IsDigits(s: string) {
    s != "" && forall i | 0 <= i < |s| :: '0' <= s[i] <= '9'
  }

  lemma {:induction false} DigitsAreDigits(n: nat)
    ensures IsDigits(Digits(n))
  {
    if n >= 10 {
      DigitsAreDigits(n / 10);
    }
  }

  lemma {:induction false} DigitsInjective(m: nat, n: nat)
    requires Digits(m) == Digits(n)
    ensures m == n
  {
    var d := Digits(m);
    assert d[|d| - 1] == ('0' as int + m % 10) as char;
    assert d[|d| - 1] == ('0' as int + n % 10) as char;
    DigitsAreDigits(m / 10);
    DigitsAreDigits(n / 10);
    if m >= 10 && n >= 10 {
      assert Digits(m / 10) == d[..|d| - 1] && Digits(n / 10) == d[..|d| - 1];
      DigitsInjective(m / 10, n / 10);
    }
  }

  /** Only zero starts with the digit zero. */
  lemma {:induction false} NoLeadingZero(n: nat)
    ensures Digits(n) != "" && (Digits(n)[0] == '0' ==> n == 0 && |Digits(n)| == 1)
  {
    if n >= 10 {
      NoLeadingZero(n / 10);
    }
  }

  // ---- what a numeral denotes ---------------------------------------------------------------

  function DigitValue(c: char): nat {
    if '0' <= c <= '9' then c as int - '0' as int else 0
  }

  function Numeral(t: string): nat {
    if t == "" then 0 else 10 * Numeral(t[..|t| - 1]) + DigitValue(t[|t| - 1])
  }

  lemma {:induction false} DigitsDenote(n: nat)
    ensures Numeral(Digits(n)) == n
  {
    var d := Digits(n);
    if n >= 10 {
      DigitsDenote(n / 10);
      assert d[..|d| - 1] == Digits(n / 10);
    } else {
      assert d[..|d| - 1] == "";
    }
  }

  function Power10(k: nat): (p: nat)
    ensures p > 0
  {
    if k == 0 then 1 else 10 * Power10(k - 1)
  }

  /** Where the point stands, or the end. */
  function PointAt(t: string): (p: nat)
    ensures p <= |t|
  {
    if t == "" || t[0] == '.' then 0 else 1 + PointAt(t[1..])
  }

  /** The number a decimal denotes: a sign, digits, and digits behind a point. */
  function DecimalValue(t: string): real {
    if t != "" && t[0] == '-' then -UnsignedValue(t[1..]) else UnsignedValue(t)
  }

  /** The value of the digits behind the point. */
  function FractionValue(digits: string): real {
    Numeral(digits) as real / Power10(|digits|) as real
  }

  function UnsignedValue(t: string): real {
    var p := PointAt(t);
    var whole := Numeral(t[..p]) as real;
    if p == |t| then whole else whole + FractionValue(t[p + 1..])
  }

  lemma {:induction false} PointBehind(whole: string, fraction: string)
    requires forall i | 0 <= i < |whole| :: whole[i] != '.'
    ensures PointAt(whole) == |whole| && PointAt(whole + ("." + fraction)) == |whole|
  {
    if whole == "" {
      assert whole + ("." + fraction) == "." + fraction;
    } else {
      PointBehind(whole[1..], fraction);
      assert (whole + ("." + fraction))[1..] == whole[1..] + ("." + fraction);
    }
  }

  lemma NumeralSnoc(t: string, c: char)
    ensures Numeral(t + [c]) == 10 * Numeral(t) + DigitValue(c)
  {
    assert (t + [c])[..|t|] == t;
  }

  lemma WholeDenotes(whole: string)
    requires forall i | 0 <= i < |whole| :: '0' <= whole[i] <= '9'
    ensures UnsignedValue(whole) == Numeral(whole) as real
  {
    PointBehind(whole, "");
    assert whole[..|whole|] == whole;
  }

  lemma PartsDenote(t: string, whole: string, fraction: string)
    requires PointAt(t) == |whole| < |t| && t[..|whole|] == whole && t[|whole| + 1..] == fraction
    ensures UnsignedValue(t) == Numeral(whole) as real + FractionValue(fraction)
  {
  }

  lemma Parted(whole: string, fraction: string)
    requires forall i | 0 <= i < |whole| :: '0' <= whole[i] <= '9'
    ensures
      var t := whole + ("." + fraction);
      PointAt(t) == |whole| < |t| && t[..|whole|] == whole && t[|whole| + 1..] == fraction
  {
    PointBehind(whole, fraction);
  }

  lemma WithFractionDenotes(whole: string, fraction: string)
    requires forall i | 0 <= i < |whole| :: '0' <= whole[i] <= '9'
    ensures UnsignedValue(whole + ("." + fraction)) == Numeral(whole) as real + FractionValue(fraction)
  {
    Parted(whole, fraction);
    PartsDenote(whole + ("." + fraction), whole, fraction);
  }
}
