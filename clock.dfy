/**
 * formatMs: a millisecond count shown as minutes and zero-padded seconds,
 * computed with Java's truncating int division.
 */
module Clock {
  import opened JavaText

  function FormatMs(ms: int): string {
    var totalSeconds := JavaDiv(ms, 1000);
    var minutes := JavaDiv(totalSeconds, 60);
    var seconds := JavaRem(totalSeconds, 60);
    FormatD(minutes) + ":" + Format02D(seconds)
  }

  function TwoDigits(n: int): (r: string)
    requires 0 <= n < 100
    ensures |r| == 2 && IsDigitChar(r[0]) && IsDigitChar(r[1])
  {
    [DigitChar(n / 10), DigitChar(n % 10)]
  }

  lemma TwoDigitsValue(n: int)
    requires 0 <= n < 100
    ensures DecimalValue(TwoDigits(n)) == n
  {
    var two := TwoDigits(n);
    assert two[..1] == [DigitChar(n / 10)];
    assert two[..1][..0] == [];
    assert DigitValue(DigitChar(n / 10)) == n / 10;
    assert DigitValue(DigitChar(n % 10)) == n % 10;
    assert DecimalValue(two[..1]) == n / 10;
    assert DecimalValue(two) == DecimalValue(two[..1]) * 10 + DigitValue(two[1]);
  }

  /** "%02d" of a number of seconds is its two digits. */
  lemma Format02DIsTwoDigits(n: int)
    requires 0 <= n < 100
    ensures Format02D(n) == TwoDigits(n)
  {
    if n >= 10 {
      assert Digits(n) == Digits(n / 10) + [DigitChar(n % 10)];
    }
  }

  /**
   * For a non-negative time the text is the whole minutes, a colon and exactly
   * two digits of seconds below 60, and reading it back gives the whole
   * seconds of ms.
   */
  lemma FormatMsReadBack(ms: int)
    requires ms >= 0
    ensures var total := ms / 1000;
      FormatMs(ms) == Digits(total / 60) + ":" + TwoDigits(total % 60)
    ensures var total := ms / 1000;
      && DecimalValue(TwoDigits(total % 60)) < 60
      && DecimalValue(Digits(total / 60)) * 60 + DecimalValue(TwoDigits(total % 60)) == total
  {
    var total := ms / 1000;
    assert JavaDiv(ms, 1000) == total;
    assert JavaDiv(total, 60) == total / 60;
    assert JavaRem(total, 60) == total % 60;
    Format02DIsTwoDigits(total % 60);
    TwoDigitsValue(total % 60);
    DigitsRoundTrip(total / 60);
  }

  /** Truncation toward zero: a negative time above -1 s, such as the -1 of an unknown duration, shows as "0:00". */
  lemma SmallNegativeIsZero(ms: int)
    requires -1000 < ms < 0
    ensures FormatMs(ms) == "0:00"
  {
    assert JavaDiv(ms, 1000) == 0;
    assert Digits(0) == "0";
  }

  /** From -59 s to -1 s the minutes truncate to 0 and only the seconds carry the sign: -2 s reads "0:-2". */
  lemma NegativeSecondsOnly()
    ensures FormatMs(-2000) == "0:-2"
  {
    assert JavaDiv(-2000, 1000) == -2;
    assert JavaDiv(-2, 60) == 0;
    assert JavaRem(-2, 60) == -2;
    assert Digits(0) == "0" && Digits(2) == "2";
  }

  /** A whole negative minute has the sign on the minutes only: -60 s reads "-1:00". */
  lemma NegativeWholeMinute()
    ensures FormatMs(-60000) == "-1:00"
  {
    assert JavaDiv(-60000, 1000) == -60;
    assert JavaDiv(-60, 60) == -1;
    assert JavaRem(-60, 60) == 0;
    assert Digits(0) == "0" && Digits(1) == "1";
  }

  /** With both a negative minute and negative seconds left over the sign shows twice: -61 s reads "-1:-1". */
  lemma NegativeMinuteShowsSignTwice()
    ensures FormatMs(-61000) == "-1:-1"
  {
    assert JavaDiv(-61000, 1000) == -61;
    assert JavaDiv(-61, 60) == -1;
    assert JavaRem(-61, 60) == -1;
    assert Digits(1) == "1";
  }
}
