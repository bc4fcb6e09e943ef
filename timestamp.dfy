/**
 * The timestamp in the output file name: `datetime.now()` is an input here,
 * and `strftime("%Y%m%d_%H%M%S")` renders it as fifteen characters, the
 * four-digit year, then two digits each for month and day, an underscore,
 * and two digits each for hour, minute and second.
 */
module Timestamp {

  datatype DateTime = DateTime(year: int, month: int, day: int, hour: int, minute: int, second: int)

  /** The field ranges of a `datetime` whose year has four digits. */
  predicate ValidDateTime(d: DateTime)
  {
    1000 <= d.year <= 9999 && 1 <= d.month <= 12 && 1 <= d.day <= 31
    && 0 <= d.hour <= 23 && 0 <= d.minute <= 59 && 0 <= d.second <= 59
  }

  predicate IsDigit(c: char)
  {
    '0' <= c <= '9'
  }

  /** The character of a decimal digit. */
  function Digit(n: int): (c: char)
    requires 0 <= n < 10
    ensures IsDigit(c)
  {
    (n + '0' as int) as char
  }

  /** The value of a digit character. */
  function DigitValue(c: char): int
  {
    c as int - '0' as int
  }

  /**
   * `strftime("%Y%m%d_%H%M%S")`: every field in decimal, zero-padded to four
   * digits for the year and two for the others.
   */
  function Format(d: DateTime): (s: string)
    requires ValidDateTime(d)
    ensures |s| == 15 && s[8] == '_'
    ensures forall k :: 0 <= k < 15 && k != 8 ==> IsDigit(s[k])
  {
    var y, c, m := d.year / 10, d.year / 10 / 10, d.year / 10 / 10 / 10;
    [Digit(m), Digit(c % 10), Digit(y % 10), Digit(d.year % 10),
     Digit(d.month / 10), Digit(d.month % 10), Digit(d.day / 10), Digit(d.day % 10),
     '_',
     Digit(d.hour / 10), Digit(d.hour % 10), Digit(d.minute / 10), Digit(d.minute % 10),
     Digit(d.second / 10), Digit(d.second % 10)]
  }

  /** The value of two digit characters. */
  function TwoDigits(hi: char, lo: char): int
  {
    10 * DigitValue(hi) + DigitValue(lo)
  }

  /** Reads the fields back out of a rendered timestamp. */
  function Parse(s: string): DateTime
    requires |s| == 15
  {
    DateTime(10 * (10 * TwoDigits(s[0], s[1]) + DigitValue(s[2])) + DigitValue(s[3]),
             TwoDigits(s[4], s[5]), TwoDigits(s[6], s[7]),
             TwoDigits(s[9], s[10]), TwoDigits(s[11], s[12]), TwoDigits(s[13], s[14]))
  }

  /** Reading back two digits written for n gives n. */
  lemma TwoDigitsRoundTrip(n: int)
    requires 0 <= n < 100
    ensures TwoDigits(Digit(n / 10), Digit(n % 10)) == n
  {
  }

  /** Parsing a rendered timestamp recovers every field. */
  lemma ParseFormat(d: DateTime)
    requires ValidDateTime(d)
    ensures Parse(Format(d)) == d
  {
    var s := Format(d);
    var y, c, m := d.year / 10, d.year / 10 / 10, d.year / 10 / 10 / 10;
    assert d.year == 10 * y + d.year % 10 && y == 10 * c + y % 10 && c == 10 * m + c % 10;
    assert TwoDigits(s[0], s[1]) == c by {
      assert DigitValue(s[0]) == m && DigitValue(s[1]) == c % 10;
    }
    assert DigitValue(s[2]) == y % 10 && DigitValue(s[3]) == d.year % 10;
    TwoDigitsRoundTrip(d.month);
    TwoDigitsRoundTrip(d.day);
    TwoDigitsRoundTrip(d.hour);
    TwoDigitsRoundTrip(d.minute);
    TwoDigitsRoundTrip(d.second);
  }

  /** Different moments (to the second) render as different timestamps. */
  lemma FormatInjective(d1: DateTime, d2: DateTime)
    requires ValidDateTime(d1) && ValidDateTime(d2) && d1 != d2
    ensures Format(d1) != Format(d2)
  {
    ParseFormat(d1);
    ParseFormat(d2);
  }
}
