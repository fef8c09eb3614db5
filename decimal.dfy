/**
 * Decimal rendering of non-negative integers, as the app uses it:
 * `%d` and `Int.toString()` print the canonical digit string, `%02d` and
 * `%03d` left-pad it with zeros to a minimum width. Each renderer is paired
 * with the reading of a digit string back to its value.
 */
module Decimal {

  predicate IsDigit(c: char) { '0' <= c <= '9' }

  predicate AllDigits(s: string) { forall i :: 0 <= i < |s| ==> IsDigit(s[i]) }

  /** A digit string as `%d` prints it: non-empty, no leading zero unless it is "0". */
  predicate IsCanonical(s: string) { |s| >= 1 && AllDigits(s) && (s[0] == '0' ==> |s| == 1) }

  function DigitValue(c: char): (d: nat)
    requires IsDigit(c)
    ensures d < 10
  {
    (c as int) - ('0' as int)
  }

  function DigitChar(d: nat): (c: char)
    requires d < 10
    ensures IsDigit(c) && DigitValue(c) == d
  {
    (('0' as int) + d) as char
  }

  function Pow10(k: nat): (p: nat)
    ensures p >= 1
  {
    if k == 0 then 1 else 10 * Pow10(k - 1)
  }

  /** The value of a digit string, most significant digit first; "" reads as 0. */
  function Value(s: string): nat
    requires AllDigits(s)
  {
    if s == [] then 0 else Value(s[..|s| - 1]) * 10 + DigitValue(s[|s| - 1])
  }

  /** `%d` (and `toString`) of a non-negative integer. */
  function FromNat(n: nat): (s: string)
    ensures IsCanonical(s)
    ensures s[0] == '0' <==> n == 0
  {
    if n < 10 then [DigitChar(n)] else FromNat(n / 10) + [DigitChar(n % 10)]
  }

  /** A run of k zero characters. */
  function Zeros(k: nat): (z: string)
    ensures |z| == k && forall i :: 0 <= i < k ==> z[i] == '0'
  {
    seq(k, _ => '0')
  }

  /** `%0<width>d` of a non-negative integer: FromNat(n), left-padded with zeros to at least `width` characters. */
  function PadZero(n: nat, width: nat): (s: string)
    ensures AllDigits(s)
  {
    var digits := FromNat(n);
    Zeros(if |digits| < width then width - |digits| else 0) + digits
  }

  lemma {:induction false} ValueOfFromNat(n: nat)
    ensures Value(FromNat(n)) == n
  {
    if n >= 10 {
      ValueOfFromNat(n / 10);
      var s := FromNat(n);
      assert s[..|s| - 1] == FromNat(n / 10);
    }
  }

  lemma {:induction false} ValuePositive(s: string)
    requires |s| >= 1 && AllDigits(s) && s[0] != '0'
    ensures Value(s) >= 1
  {
    if |s| > 1 {
      var p := s[..|s| - 1];
      assert p[0] == s[0];
      ValuePositive(p);
    } else {
      assert s[..0] == [];
    }
  }

  /** Reading a canonical digit string and printing its value gives the string back. */
  lemma {:induction false} FromNatOfValue(s: string)
    requires IsCanonical(s)
    ensures FromNat(Value(s)) == s
  {
    var p := s[..|s| - 1];
    var c := s[|s| - 1];
    if |s| == 1 {
      assert p == [];
      assert Value(s) == DigitValue(c);
      assert [c] == s;
    } else {
      assert p[0] == s[0];
      ValuePositive(p);
      FromNatOfValue(p);
      var v := Value(s);
      assert v == Value(p) * 10 + DigitValue(c);
      assert v / 10 == Value(p) && v % 10 == DigitValue(c);
      assert FromNat(v) == p + [DigitChar(DigitValue(c))];
      assert DigitChar(DigitValue(c)) == c;
      assert p + [c] == s;
    }
  }

  lemma {:induction false} ValueOfZeros(k: nat)
    ensures Value(Zeros(k)) == 0
  {
    if k > 0 {
      assert Zeros(k)[..k - 1] == Zeros(k - 1);
      ValueOfZeros(k - 1);
    }
  }

  /** Leading zeros do not change the value of a digit string. */
  lemma {:induction false} ValueOfLeadingZeros(k: nat, t: string)
    requires AllDigits(t)
    ensures AllDigits(Zeros(k) + t) && Value(Zeros(k) + t) == Value(t)
  {
    if t == [] {
      assert Zeros(k) + t == Zeros(k);
      ValueOfZeros(k);
    } else {
      var u := Zeros(k) + t;
      var p := t[..|t| - 1];
      assert u[..|u| - 1] == Zeros(k) + p;
      assert u[|u| - 1] == t[|t| - 1];
      ValueOfLeadingZeros(k, p);
    }
  }

  /** A digit string of length k reads below 10^k. */
  lemma {:induction false} ValueBound(s: string)
    requires AllDigits(s)
    ensures Value(s) < Pow10(|s|)
  {
    if s != [] {
      ValueBound(s[..|s| - 1]);
    }
  }

  lemma {:induction false} FromNatLength(n: nat, width: nat)
    requires 1 <= width && n < Pow10(width)
    ensures |FromNat(n)| <= width
  {
    if n >= 10 {
      assert width >= 2;
      FromNatLength(n / 10, width - 1);
    }
  }

  /** `%0<width>d` of a value below 10^width is exactly `width` digits and reads back to the value. */
  lemma PadZeroExact(n: nat, width: nat)
    requires 1 <= width && n < Pow10(width)
    ensures |PadZero(n, width)| == width
    ensures Value(PadZero(n, width)) == n
  {
    FromNatLength(n, width);
    var digits := FromNat(n);
    ValueOfLeadingZeros(width - |digits|, digits);
    ValueOfFromNat(n);
  }

  /** Every digit string of length `width` is `%0<width>d` of its own value. */
  lemma {:induction false} PadZeroOfValue(s: string)
    requires |s| >= 1 && AllDigits(s)
    ensures PadZero(Value(s), |s|) == s
  {
    if s[0] != '0' || |s| == 1 {
      FromNatOfValue(s);
      assert Zeros(0) + s == s;
    } else {
      var t := s[1..];
      assert s == Zeros(1) + t;
      ValueOfLeadingZeros(1, t);
      PadZeroOfValue(t);
      var v := Value(t);
      var digits := FromNat(v);
      assert |digits| <= |t|;
      assert Zeros(|s| - |digits|) == Zeros(1) + Zeros(|t| - |digits|);
    }
  }
}
