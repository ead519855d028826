/** The stopwatch's text output: `Long.zeroPrefixedString` and the `HH:MM:SS.mmm` and
    `N days` lines built from a TimeElapsed. */
module Format {
  import opened Decimal
  import opened Duration

  /** `k` zero characters. */
  function Zeros(k: nat): (z: string)
    ensures |z| == k
    ensures forall i :: 0 <= i < k ==> z[i] == '0'
  {
    if k == 0 then "" else Zeros(k - 1) + "0"
  }

  /** What `n.zeroPrefixedString(width)` returns: the text of `n`, preceded by as many
      '0's as it falls short of `width` (none when it is already that long). */
  function ZeroPrefixed(n: int, width: int): (r: string)
    ensures |r| == if width > |LongToString(n)| then width else |LongToString(n)|
  {
    var s := LongToString(n);
    Zeros(if width > |s| then width - |s| else 0) + s
  }

  /** The result is as long as `width` or the number's text, whichever is longer; it ends
      with that text, everything before is '0', and a text already `width` long is kept as is. */
  lemma ZeroPrefixedShape(n: int, width: int)
    ensures var r, s := ZeroPrefixed(n, width), LongToString(n);
      && |r| == (if width > |s| then width else |s|)
      && r[|r| - |s|..] == s
      && (forall i :: 0 <= i < |r| - |s| ==> r[i] == '0')
      && (|s| >= width ==> r == s)
  {
  }

  /** `Long.zeroPrefixedString(numStrLength)`: counts down the missing width,
      appending one '0' per step, then appends the number's text. Its result is the
      ZeroPrefixed text, whose shape ZeroPrefixedShape states. */
  method ZeroPrefixedString(n: int, numStrLength: int := 2) returns (resultingString: string)
    ensures resultingString == ZeroPrefixed(n, numStrLength)
  {
    var text := LongToString(n);
    var numOfZerosToPrefix := numStrLength - |text|;
    ghost var missing := numOfZerosToPrefix;
    resultingString := "";
    while numOfZerosToPrefix > 0
      invariant numOfZerosToPrefix <= missing
      invariant numOfZerosToPrefix >= 0 || numOfZerosToPrefix == missing
      invariant resultingString == Zeros(missing - numOfZerosToPrefix)
    {
      resultingString := resultingString + "0";
      numOfZerosToPrefix := numOfZerosToPrefix - 1;
    }
    resultingString := resultingString + text;
  }

  /** Leading zeros do not change the value a string of digits stands for. */
  lemma {:induction false} LeadingZerosValue(k: nat, s: string)
    requires AllDigits(s)
    ensures AllDigits(Zeros(k) + s) && DecimalValue(Zeros(k) + s) == DecimalValue(s)
    decreases |s|
  {
    var z := Zeros(k) + s;
    if s == [] {
      assert z == Zeros(k);
      ZerosValue(k);
    } else {
      assert z[..|z| - 1] == Zeros(k) + s[..|s| - 1];
      LeadingZerosValue(k, s[..|s| - 1]);
    }
  }

  lemma {:induction false} ZerosValue(k: nat)
    ensures AllDigits(Zeros(k)) && DecimalValue(Zeros(k)) == 0
  {
    if k > 0 {
      assert Zeros(k)[..k - 1] == Zeros(k - 1);
      ZerosValue(k - 1);
    }
  }

  /** A number below 10^width is written in exactly `width` digits, and they read back as it. */
  lemma ZeroPrefixedField(n: int, width: nat)
    requires width >= 1 && 0 <= n < Pow10(width)
    ensures |ZeroPrefixed(n, width)| == width
    ensures AllDigits(ZeroPrefixed(n, width))
    ensures DecimalValue(ZeroPrefixed(n, width)) == n
  {
    var s := NatToString(n);
    NatToStringLength(n, width);
    assert LongToString(n) == s;
    assert ZeroPrefixed(n, width) == Zeros(width - |s|) + s;
    NatToStringValue(n);
    LeadingZerosValue(width - |s|, s);
  }

  /** The time line, `"${hours}:${minutes}:${seconds}.${milliseconds}"` with the fields
      zero-prefixed to 2, 2, 2 and 3 characters. */
  function TimeText(te: TimeElapsed): (t: string)
    ensures |t| >= 12
  {
    ZeroPrefixed(te.hours, 2) + ":" + ZeroPrefixed(te.minutes, 2) + ":"
      + ZeroPrefixed(te.seconds, 2) + "." + ZeroPrefixed(te.milliseconds, 3)
  }

  /** The days line, `"${days} days"`. */
  function DaysText(te: TimeElapsed): (d: string)
    ensures |d| >= 6 && d[|d| - 5..] == " days"
  {
    LongToString(te.days) + " days"
  }

  /** For an in-range decomposition the time line is exactly 12 characters, with the
      separators in place and each field reading back as its component. */
  lemma TimeTextLayout(te: TimeElapsed)
    requires Normalized(te)
    ensures var t := TimeText(te);
      && |t| == 12
      && t[2] == ':' && t[5] == ':' && t[8] == '.'
      && AllDigits(t[0..2]) && DecimalValue(t[0..2]) == te.hours
      && AllDigits(t[3..5]) && DecimalValue(t[3..5]) == te.minutes
      && AllDigits(t[6..8]) && DecimalValue(t[6..8]) == te.seconds
      && AllDigits(t[9..12]) && DecimalValue(t[9..12]) == te.milliseconds
  {
    ZeroPrefixedField(te.hours, 2);
    ZeroPrefixedField(te.minutes, 2);
    ZeroPrefixedField(te.seconds, 2);
    ZeroPrefixedField(te.milliseconds, 3);
    ClockFields(ZeroPrefixed(te.hours, 2), ZeroPrefixed(te.minutes, 2),
      ZeroPrefixed(te.seconds, 2), ZeroPrefixed(te.milliseconds, 3));
  }

  /** Where the four fields sit in `h:m:s.ms` when they are 2, 2, 2 and 3 characters long. */
  lemma ClockFields(h: string, m: string, s: string, ms: string)
    requires |h| == 2 && |m| == 2 && |s| == 2 && |ms| == 3
    ensures var t := h + ":" + m + ":" + s + "." + ms;
      && |t| == 12 && t[2] == ':' && t[5] == ':' && t[8] == '.'
      && t[0..2] == h && t[3..5] == m && t[6..8] == s && t[9..12] == ms
  {
    var t := h + ":" + m + ":" + s + "." + ms;
    assert t[0..2] == h;
    assert t[3..5] == m;
    assert t[6..8] == s;
    assert t[9..12] == ms;
  }

  /** The days line always ends in " days", after the text of the day count. */
  lemma DaysTextLayout(te: TimeElapsed)
    ensures var d := DaysText(te);
      |d| >= 6 && d[|d| - 5..] == " days" && ParseLong(d[..|d| - 5]) == te.days
  {
    var d := DaysText(te);
    assert d[..|d| - 5] == LongToString(te.days);
    LongToStringRoundTrip(te.days);
  }

  /** Reads a time line back as milliseconds within the day; 0 for text not of the form
      `hh:mm:ss.mmm`. */
  function ReadTimeText(t: string): (millisOfDay: int) {
    if |t| == 12 && AllDigits(t[0..2]) && AllDigits(t[3..5]) && AllDigits(t[6..8]) && AllDigits(t[9..12])
    then DecimalValue(t[0..2]) * MillisPerHour + DecimalValue(t[3..5]) * MillisPerMinute
      + DecimalValue(t[6..8]) * MillisPerSecond + DecimalValue(t[9..12])
    else 0
  }

  /** Reads a days line back as a day count; 0 for text not of the form `N days`. */
  function ReadDaysText(d: string): (days: int) {
    if |d| >= 6 && d[|d| - 5..] == " days" && DaysCountText(d[..|d| - 5])
    then ParseLong(d[..|d| - 5])
    else 0
  }

  predicate DaysCountText(n: string) {
    |n| >= 1 && (n[0] == '-' ==> AllDigits(n[1..])) && (n[0] != '-' ==> AllDigits(n))
  }

  /** The two lines shown for a non-negative span determine it: reading them back and
      recombining days and time of day gives the elapsed milliseconds. */
  lemma ElapsedTextsRoundTrip(startTime: int, endTime: int)
    requires startTime <= endTime
    ensures var te := GetTimeBetween(startTime, endTime);
      ReadDaysText(DaysText(te)) * MillisPerDay + ReadTimeText(TimeText(te)) == endTime - startTime
  {
    var te := GetTimeBetween(startTime, endTime);
    TimeTextLayout(te);
    DaysTextLayout(te);
    var d := DaysText(te);
    assert d[..|d| - 5] == LongToString(te.days);
    assert ReadDaysText(d) == te.days;
    assert ReadTimeText(TimeText(te)) == TotalMillis(te) - te.days * MillisPerDay;
  }

  /** A one-digit number pads to a '0' followed by its digit. */
  lemma PadOneDigit(n: int)
    requires 0 <= n < 10
    ensures ZeroPrefixed(n, 2) == ['0', DigitChar(n)]
    ensures ZeroPrefixed(n, 3) == ['0', '0', DigitChar(n)]
  {
    assert LongToString(n) == [DigitChar(n)];
    assert Zeros(2) == ['0', '0'];
  }

  /** A two-digit number is its own two-character field. */
  lemma PadTwoDigits(n: int)
    requires 10 <= n < 100
    ensures ZeroPrefixed(n, 2) == [DigitChar(n / 10), DigitChar(n % 10)]
  {
    assert NatToString(n / 10) == [DigitChar(n / 10)];
    assert LongToString(n) == [DigitChar(n / 10), DigitChar(n % 10)];
  }

  /** 5 days, 1 hour, 2 minutes, 3 seconds and 4 ms show as "01:02:03.004" and "5 days". */
  lemma FiveDaysScenario(startTime: int)
    ensures var te := GetTimeBetween(startTime, startTime + 5 * MillisPerDay + MillisPerHour
                                       + 2 * MillisPerMinute + 3 * MillisPerSecond + 4);
      TimeText(te) == "01:02:03.004" && DaysText(te) == "5 days"
  {
    NormalizedUnique(startTime, TimeElapsed(5, 1, 2, 3, 4));
    FiveDaysTexts();
  }

  lemma FiveDaysTexts()
    ensures TimeText(TimeElapsed(5, 1, 2, 3, 4)) == "01:02:03.004"
    ensures DaysText(TimeElapsed(5, 1, 2, 3, 4)) == "5 days"
  {
    PadOneDigit(1);
    PadOneDigit(2);
    PadOneDigit(3);
    PadOneDigit(4);
    assert LongToString(5) == "5";
  }

  /** Exactly 100 seconds show as "00:01:40.000" and "0 days". */
  lemma HundredSecondsScenario(startTime: int)
    ensures var te := GetTimeBetween(startTime, startTime + 100 * MillisPerSecond);
      TimeText(te) == "00:01:40.000" && DaysText(te) == "0 days"
  {
    NormalizedUnique(startTime, TimeElapsed(0, 0, 1, 40, 0));
    HundredSecondsTexts();
  }

  lemma HundredSecondsTexts()
    ensures TimeText(TimeElapsed(0, 0, 1, 40, 0)) == "00:01:40.000"
    ensures DaysText(TimeElapsed(0, 0, 1, 40, 0)) == "0 days"
  {
    PadOneDigit(0);
    PadOneDigit(1);
    PadTwoDigits(40);
    assert DigitChar(0) == '0' && DigitChar(1) == '1' && DigitChar(4) == '4';
    assert TimeText(TimeElapsed(0, 0, 1, 40, 0)) == "00" + ":" + "01" + ":" + "40" + "." + "000";
    assert LongToString(0) == "0";
  }

  /** A negative one-digit number keeps its minus sign after the prefixed zeros. */
  lemma PadNegativeOneDigit(n: int)
    requires -10 < n < 0
    ensures ZeroPrefixed(n, 3) == ['0', '-', DigitChar(-n)]
  {
    assert LongToString(n) == ['-', DigitChar(-n)];
    assert Zeros(1) == ['0'];
  }

  /** An end one millisecond before the start (a clock set back) gives a negative millisecond
      field, and the zero prefix goes in front of its minus sign. */
  lemma NegativeSpanText(startTime: int)
    ensures TimeText(GetTimeBetween(startTime, startTime - 1)) == "00:00:00.0-1"
  {
    GetTimeBetweenNegative(startTime, startTime - 1, TimeElapsed(0, 0, 0, 0, 1));
    MinusOneMillisecondText();
  }

  lemma MinusOneMillisecondText()
    ensures TimeText(TimeElapsed(0, 0, 0, 0, -1)) == "00:00:00.0-1"
  {
    PadOneDigit(0);
    PadNegativeOneDigit(-1);
  }
}
