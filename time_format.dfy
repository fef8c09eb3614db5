/**
 * The countdown text of MainActivity.kt: `formatTime` splits a non-negative
 * millisecond count into minutes, seconds and milliseconds and prints them
 * as `M:SS:mmm`. ParseTime reads that text back; the two are proved inverse.
 */
module TimeFormat {
  import opened Wrappers
  import opened Decimal

  const MillisPerMinute: nat := 60_000
  const MillisPerSecond: nat := 1000

  function Minutes(durationMillis: nat): nat { durationMillis / MillisPerMinute }

  function Seconds(durationMillis: nat): nat { (durationMillis % MillisPerMinute) / MillisPerSecond }

  function Millis(durationMillis: nat): nat { durationMillis % MillisPerMinute % MillisPerSecond }

  /** `String.format("%d:%02d:%03d", minutes, seconds, millis)`. */
  function FormatFields(minutes: nat, seconds: nat, millis: nat): string
  {
    FromNat(minutes) + ":" + PadZero(seconds, 2) + ":" + PadZero(millis, 3)
  }

  /**
   * The shape of `M:SS:mmm`: a canonical decimal minute count, a colon, two digits
   * reading below 60, a colon, three digits.
   */
  predicate IsTimeText(s: string)
  {
    |s| >= 8 && s[|s| - 7] == ':' && s[|s| - 4] == ':' &&
    IsCanonical(s[..|s| - 7]) && AllDigits(s[|s| - 6..|s| - 4]) && AllDigits(s[|s| - 3..]) &&
    Value(s[|s| - 6..|s| - 4]) < 60
  }

  function FormatTime(durationMillis: nat): (s: string)
    ensures IsTimeText(s)
    ensures |s| == |FromNat(Minutes(durationMillis))| + 7
  {
    FieldBounds(durationMillis);
    PadZeroExact(Seconds(durationMillis), 2);
    PadZeroExact(Millis(durationMillis), 3);
    var s := FormatFields(Minutes(durationMillis), Seconds(durationMillis), Millis(durationMillis));
    assert s[..|s| - 7] == FromNat(Minutes(durationMillis));
    assert s[|s| - 6..|s| - 4] == PadZero(Seconds(durationMillis), 2);
    assert s[|s| - 3..] == PadZero(Millis(durationMillis), 3);
    s
  }

  /** The text shown beside the ruler: the countdown clamped at zero, then formatted. */
  function DisplayText(countdownMillis: int): (s: string)
    ensures countdownMillis <= 0 ==> s == "0:00:000"
    ensures countdownMillis >= 0 ==> ParseTime(s) == Some(countdownMillis)
  {
    var clamped: nat := if countdownMillis < 0 then 0 else countdownMillis;
    FormatZero();
    ParseFormat(clamped);
    FormatTime(clamped)
  }

  /** Reads `M:SS:mmm` back to a millisecond count; None for any other text. */
  function ParseTime(s: string): Option<nat>
  {
    if IsTimeText(s) then
      Some(Value(s[..|s| - 7]) * MillisPerMinute + Value(s[|s| - 6..|s| - 4]) * MillisPerSecond
           + Value(s[|s| - 3..]))
    else None
  }

  /** The three fields recombine to the input, and seconds and milliseconds fit their 2 and 3 digits. */
  lemma FieldBounds(durationMillis: nat)
    ensures Minutes(durationMillis) * MillisPerMinute + Seconds(durationMillis) * MillisPerSecond
            + Millis(durationMillis) == durationMillis
    ensures Seconds(durationMillis) < 60 && Millis(durationMillis) < 1000
  {
  }

  /** The field widths of `%02d` and `%03d` are exact: the text never grows past two and three digits. */
  lemma FieldWidths(durationMillis: nat)
    ensures |PadZero(Seconds(durationMillis), 2)| == 2
    ensures |PadZero(Millis(durationMillis), 3)| == 3
  {
    FieldBounds(durationMillis);
    PadZeroExact(Seconds(durationMillis), 2);
    PadZeroExact(Millis(durationMillis), 3);
  }

  /** Division by the constant field sizes is unique: a quotient and a remainder below q determine d / q and d % q. */
  lemma SplitBy(d: nat, q: nat, a: nat, r: nat)
    requires q == MillisPerMinute || q == MillisPerSecond
    requires r < q && d == a * q + r
    ensures d / q == a && d % q == r
  {
  }

  /** Formatting then parsing returns the original duration. */
  lemma ParseFormat(durationMillis: nat)
    ensures ParseTime(FormatTime(durationMillis)) == Some(durationMillis)
  {
    var s := FormatTime(durationMillis);
    FieldBounds(durationMillis);
    PadZeroExact(Seconds(durationMillis), 2);
    PadZeroExact(Millis(durationMillis), 3);
    ValueOfFromNat(Minutes(durationMillis));
    assert s[..|s| - 7] == FromNat(Minutes(durationMillis));
    assert s[|s| - 6..|s| - 4] == PadZero(Seconds(durationMillis), 2);
    assert s[|s| - 3..] == PadZero(Millis(durationMillis), 3);
  }

  /** Every text the parser accepts is the formatting of the duration it reads: the format is injective. */
  lemma FormatParse(s: string, durationMillis: nat)
    requires ParseTime(s) == Some(durationMillis)
    ensures FormatTime(durationMillis) == s
  {
    var m, ss, ms := s[..|s| - 7], s[|s| - 6..|s| - 4], s[|s| - 3..];
    var minutes, seconds, millis := Value(m), Value(ss), Value(ms);
    PadZeroOfValue(ss);
    PadZeroOfValue(ms);
    FromNatOfValue(m);
    ValueBound(ms);
    assert millis < 1000 by { assert Pow10(3) == 1000; }
    var r := seconds * MillisPerSecond + millis;
    assert durationMillis == minutes * MillisPerMinute + r && r < MillisPerMinute;
    SplitBy(durationMillis, MillisPerMinute, minutes, r);
    SplitBy(r, MillisPerSecond, seconds, millis);
    assert s == m + ":" + ss + ":" + ms;
  }

  /** `0` is shown as "0:00:000". */
  lemma FormatZero()
    ensures FormatTime(0) == "0:00:000"
  {
  }

  lemma FormatExamples()
    ensures FormatTime(65_432) == "1:05:432"
    ensures FormatTime(3_600_000) == "60:00:000"
  {
  }
}
