/**
 * The part of java.time.LocalDate the extractor relies on: `LocalDate.parse` of
 * the ISO form yyyy-MM-dd (strict: the month and day must exist in the proleptic
 * Gregorian calendar), `toString` of a four-digit year, and `isBefore`.
 */
module JavaTime {
  import opened Wrappers

  datatype Date = Date(year: int, month: int, day: int)

  predicate IsLeapYear(y: int) {
    y % 4 == 0 && (y % 100 != 0 || y % 400 == 0)
  }

  function DaysInMonth(y: int, m: int): (n: int)
    ensures 28 <= n <= 31
  {
    if m == 2 then (if IsLeapYear(y) then 29 else 28)
    else if m == 4 || m == 6 || m == 9 || m == 11 then 30
    else 31
  }

  /** The twelve months add up to the proleptic Gregorian year: 366 days in a leap year, 365 otherwise. */
  lemma DaysInYear(y: int)
    ensures DaysInMonth(y, 1) + DaysInMonth(y, 2) + DaysInMonth(y, 3) + DaysInMonth(y, 4)
      + DaysInMonth(y, 5) + DaysInMonth(y, 6) + DaysInMonth(y, 7) + DaysInMonth(y, 8)
      + DaysInMonth(y, 9) + DaysInMonth(y, 10) + DaysInMonth(y, 11) + DaysInMonth(y, 12)
      == if IsLeapYear(y) then 366 else 365
  {
  }

  /** A calendar date that exists, with a year `toString` writes as four plain digits. */
  predicate IsValidDate(d: Date) {
    0 <= d.year <= 9999 && 1 <= d.month <= 12 && 1 <= d.day <= DaysInMonth(d.year, d.month)
  }

  /** A `java.time.LocalDate` in the range this model formats: a valid date with a year of at most four digits. */
  type LocalDate = d: Date | IsValidDate(d) witness Date(2000, 1, 1)

  predicate IsAsciiDigit(c: char) {
    '0' <= c <= '9'
  }

  function DigitOf(c: char): (n: int)
    requires IsAsciiDigit(c)
    ensures 0 <= n <= 9
  {
    c as int - '0' as int
  }

  function DigitChar(n: int): (c: char)
    requires 0 <= n <= 9
    ensures IsAsciiDigit(c) && DigitOf(c) == n
  {
    ('0' as int + n) as char
  }

  /** `s.matches("\\d{4}-\\d{2}-\\d{2}")`. */
  predicate IsIsoShape(s: string) {
    && |s| == 10
    && IsAsciiDigit(s[0]) && IsAsciiDigit(s[1]) && IsAsciiDigit(s[2]) && IsAsciiDigit(s[3])
    && s[4] == '-' && IsAsciiDigit(s[5]) && IsAsciiDigit(s[6])
    && s[7] == '-' && IsAsciiDigit(s[8]) && IsAsciiDigit(s[9])
  }

  /** `d.toString()` for a year of at most four digits: zero-padded yyyy-MM-dd. */
  function FormatIsoDate(d: Date): (s: string)
    requires IsValidDate(d)
    ensures IsIsoShape(s)
  {
    [DigitChar(d.year / 1000), DigitChar(d.year / 100 % 10), DigitChar(d.year / 10 % 10), DigitChar(d.year % 10),
     '-', DigitChar(d.month / 10), DigitChar(d.month % 10),
     '-', DigitChar(d.day / 10), DigitChar(d.day % 10)]
  }

  /**
   * `LocalDate.parse(s)` for the four-digit-year form: `None` where Java throws
   * DateTimeParseException (wrong shape, or a month or day that does not exist).
   */
  function ParseIsoDate(s: string): (r: Option<Date>)
    ensures r.Some? ==> IsIsoShape(s) && IsValidDate(r.value)
    ensures r.Some? ==> FormatIsoDate(r.value) == s
  {
    if !IsIsoShape(s) then None
    else
      var y := 1000 * DigitOf(s[0]) + 100 * DigitOf(s[1]) + 10 * DigitOf(s[2]) + DigitOf(s[3]);
      var m := 10 * DigitOf(s[5]) + DigitOf(s[6]);
      var d := 10 * DigitOf(s[8]) + DigitOf(s[9]);
      var date := Date(y, m, d);
      if IsValidDate(date) then
        assert FormatIsoDate(date) == s by {
          JoinFourDigits(DigitOf(s[0]), DigitOf(s[1]), DigitOf(s[2]), DigitOf(s[3]));
          JoinTwoDigits(DigitOf(s[5]), DigitOf(s[6]));
          JoinTwoDigits(DigitOf(s[8]), DigitOf(s[9]));
          var f := FormatIsoDate(date);
          forall k | 0 <= k < 10 ensures f[k] == s[k] {
            if k != 4 && k != 7 {
              DigitRoundTrip(s[k]);
            }
          }
        }
        Some(date)
      else None
  }

  /** Division by 10 with a known quotient and remainder. */
  lemma DivTen(y: int, q: int, r: int)
    requires 0 <= r < 10 && y == 10 * q + r
    ensures y / 10 == q && y % 10 == r
  {
  }

  lemma JoinFourDigits(a: int, b: int, c: int, d: int)
    requires 0 <= a <= 9 && 0 <= b <= 9 && 0 <= c <= 9 && 0 <= d <= 9
    ensures var y := 1000 * a + 100 * b + 10 * c + d;
            y / 1000 == a && y / 100 % 10 == b && y / 10 % 10 == c && y % 10 == d
  {
    var y := 1000 * a + 100 * b + 10 * c + d;
    DivTen(y, 100 * a + 10 * b + c, d);
    DivTen(100 * a + 10 * b + c, 10 * a + b, c);
    DivTen(10 * a + b, a, b);
    assert y / 100 == 10 * a + b;
    assert y / 1000 == a;
  }

  lemma JoinTwoDigits(a: int, b: int)
    requires 0 <= a <= 9 && 0 <= b <= 9
    ensures (10 * a + b) / 10 == a && (10 * a + b) % 10 == b
  {
    DivTen(10 * a + b, a, b);
  }

  lemma SplitFourDigits(y: int)
    requires 0 <= y <= 9999
    ensures y == 1000 * (y / 1000) + 100 * (y / 100 % 10) + 10 * (y / 10 % 10) + y % 10
  {
  }

  lemma DigitRoundTrip(c: char)
    requires IsAsciiDigit(c)
    ensures DigitChar(DigitOf(c)) == c
  {
  }

  /** Formatting a valid date and parsing the text gives the date back. */
  lemma ParseFormat(d: Date)
    requires IsValidDate(d)
    ensures ParseIsoDate(FormatIsoDate(d)) == Some(d)
  {
    var s := FormatIsoDate(d);
    SplitFourDigits(d.year);
    assert 1000 * DigitOf(s[0]) + 100 * DigitOf(s[1]) + 10 * DigitOf(s[2]) + DigitOf(s[3]) == d.year;
    assert 10 * DigitOf(s[5]) + DigitOf(s[6]) == d.month;
    assert 10 * DigitOf(s[8]) + DigitOf(s[9]) == d.day;
  }

  /** `a.isBefore(b)`: strictly earlier in (year, month, day) order. */
  predicate Before(a: Date, b: Date) {
    a.year < b.year || (a.year == b.year && (a.month < b.month || (a.month == b.month && a.day < b.day)))
  }

  /** `isBefore` is a strict total order on dates. */
  lemma BeforeIsStrictTotal(a: Date, b: Date, c: Date)
    ensures !Before(a, a)
    ensures Before(a, b) && Before(b, c) ==> Before(a, c)
    ensures a == b || Before(a, b) || Before(b, a)
  {
  }
}
