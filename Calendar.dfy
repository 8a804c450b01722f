/** Dates and times as `Appointment` reads and writes them: `LocalDate` with the
    pattern `dd-MM-uuuu` and `LocalTime` with `HH-mm`, both with the STRICT
    resolver, plus the local date-time arithmetic behind the appointment
    interval. Years are the four-digit years 0000-9999. */
module Calendar {
  import opened Results
  import opened Strings

  datatype Date = Date(year: int, month: int, day: int)

  datatype Time = Time(hour: int, minute: int)

  const MINUTES_PER_DAY: int := 1440

  /** The proleptic Gregorian leap-year rule (`IsoChronology.isLeapYear`). */
  predicate IsLeapYear(y: int) {
    y % 4 == 0 && (y % 100 != 0 || y % 400 == 0)
  }

  function DaysInMonth(y: int, m: int): int {
    if m == 2 then (if IsLeapYear(y) then 29 else 28)
    else if m == 4 || m == 6 || m == 9 || m == 11 then 30
    else 31
  }

  /** A calendar date that the strict resolver accepts, with a four-digit year. */
  predicate ValidDate(d: Date) {
    0 <= d.year <= 9999 && 1 <= d.month <= 12 && 1 <= d.day <= DaysInMonth(d.year, d.month)
  }

  /** A time of day with minute resolution; hour 24 is not a time. */
  predicate ValidTime(t: Time) {
    0 <= t.hour < 24 && 0 <= t.minute < 60
  }

  // ---------------------------------------------------------------------------
  // Text forms
  // ---------------------------------------------------------------------------

  /** `n` as two digits, zero-padded (the `dd`, `MM`, `HH` and `mm` fields). */
  function Pad2(n: int): string {
    [DigitChar((n / 10) % 10), DigitChar(n % 10)]
  }

  /** `n` as four digits, zero-padded (the `uuuu` field for years 0-9999). */
  function Pad4(n: int): string {
    [DigitChar((n / 1000) % 10), DigitChar((n / 100) % 10), DigitChar((n / 10) % 10), DigitChar(n % 10)]
  }

  /** `date.format(FORMATTER_DATE)`. */
  function FormatDate(d: Date): string {
    Pad2(d.day) + "-" + Pad2(d.month) + "-" + Pad4(d.year)
  }

  /** `startTime.format(FORMATTER_TIME)`. */
  function FormatTime(t: Time): string {
    Pad2(t.hour) + "-" + Pad2(t.minute)
  }

  /** `LocalDate.parse(text, FORMATTER_DATE)`: exactly two digits, '-', two
      digits, '-', four digits and nothing else, and the fields must name a real
      day (no 29 February outside leap years, no 31 in a 30-day month).
      `None` is the DateTimeParseException. */
  function ParseDate(text: string): (r: Option<Date>)
    ensures r.Some? ==> ValidDate(r.value) && FormatDate(r.value) == text
  {
    if |text| == 10 && text[2] == '-' && text[5] == '-'
       && AllDigits(text[..2]) && AllDigits(text[3..5]) && AllDigits(text[6..])
    then
      var d := Date(DigitsValue(text[6..]), DigitsValue(text[3..5]), DigitsValue(text[..2]));
      if ValidDate(d) then
        Pad2OfDigits(text[..2]);
        Pad2OfDigits(text[3..5]);
        Pad4OfDigits(text[6..]);
        assert FormatDate(d) == text;
        Some(d)
      else None
    else None
  }

  /** `LocalTime.parse(text, FORMATTER_TIME)`: two digits, '-', two digits, with
      the hour in 00-23 and the minute in 00-59. `None` is the
      DateTimeParseException. */
  function ParseTime(text: string): (r: Option<Time>)
    ensures r.Some? ==> ValidTime(r.value) && FormatTime(r.value) == text
  {
    if |text| == 5 && text[2] == '-' && AllDigits(text[..2]) && AllDigits(text[3..]) then
      var t := Time(DigitsValue(text[..2]), DigitsValue(text[3..]));
      if ValidTime(t) then
        Pad2OfDigits(text[..2]);
        Pad2OfDigits(text[3..]);
        assert FormatTime(t) == text;
        Some(t)
      else None
    else None
  }

  lemma DigitCharOfValue(c: char)
    requires IsDigit(c)
    ensures DigitChar(DigitValue(c)) == c
  {
  }

  lemma DigitsValue2(s: string)
    requires |s| == 2 && AllDigits(s)
    ensures DigitsValue(s) == DigitValue(s[0]) * 10 + DigitValue(s[1])
  {
    assert s[..1][..0] == [];
    assert DigitsValue(s[..1]) == DigitValue(s[0]);
  }

  lemma DigitsValue4(s: string)
    requires |s| == 4 && AllDigits(s)
    ensures DigitsValue(s) == ((DigitValue(s[0]) * 10 + DigitValue(s[1])) * 10 + DigitValue(s[2])) * 10 + DigitValue(s[3])
  {
    assert s[..3][..2] == s[..2];
    DigitsValue2(s[..2]);
  }

  lemma Pad2OfDigits(s: string)
    requires |s| == 2 && AllDigits(s)
    ensures Pad2(DigitsValue(s)) == s
  {
    DigitsValue2(s);
    DigitCharOfValue(s[0]);
    DigitCharOfValue(s[1]);
  }

  /** Division by a power of ten undoes `q * d + r` for a remainder below `d`. */
  lemma DivPowerOfTen(q: int, r: int, d: int)
    requires d == 10 || d == 100 || d == 1000
    requires 0 <= r < d
    ensures (q * d + r) / d == q && (q * d + r) % d == r
  {
  }

  lemma Pad4OfDigits(s: string)
    requires |s| == 4 && AllDigits(s)
    ensures Pad4(DigitsValue(s)) == s
  {
    DigitsValue4(s);
    DigitCharOfValue(s[0]);
    DigitCharOfValue(s[1]);
    DigitCharOfValue(s[2]);
    DigitCharOfValue(s[3]);
    var a, b, c, e := DigitValue(s[0]), DigitValue(s[1]), DigitValue(s[2]), DigitValue(s[3]);
    var k := a * 10 + b;
    var m := k * 10 + c;
    var n := m * 10 + e;
    DivPowerOfTen(m, e, 10);
    DivPowerOfTen(k, c, 10);
    DivPowerOfTen(a, b, 10);
    DivPowerOfTen(0, a, 10);
    assert n == k * 100 + (c * 10 + e);
    DivPowerOfTen(k, c * 10 + e, 100);
    assert n == a * 1000 + (b * 100 + c * 10 + e);
    DivPowerOfTen(a, b * 100 + c * 10 + e, 1000);
  }

  lemma DigitsOfPad2(n: int)
    requires 0 <= n < 100
    ensures AllDigits(Pad2(n)) && DigitsValue(Pad2(n)) == n
  {
    DigitsValue2(Pad2(n));
  }

  lemma DigitsOfPad4(n: int)
    requires 0 <= n < 10000
    ensures AllDigits(Pad4(n)) && DigitsValue(Pad4(n)) == n
  {
    DigitsValue4(Pad4(n));
    var q1, q2, q3 := n / 10, n / 100, n / 1000;
    assert n == q1 * 10 + n % 10;
    assert q1 == q2 * 10 + q1 % 10 by { assert q2 == q1 / 10; }
    assert q2 == q3 * 10 + q2 % 10 by { assert q3 == q2 / 10; }
    assert q3 % 10 == q3;
  }

  /** Formatting a valid date and parsing it back gives the date: together with
      the ensures of `ParseDate`, the two are inverse on valid dates. */
  lemma ParseDateOfFormatDate(d: Date)
    requires ValidDate(d)
    ensures ParseDate(FormatDate(d)) == Some(d)
  {
    var s := FormatDate(d);
    assert s[..2] == Pad2(d.day) && s[3..5] == Pad2(d.month) && s[6..] == Pad4(d.year);
    DigitsOfPad2(d.day);
    DigitsOfPad2(d.month);
    DigitsOfPad4(d.year);
  }

  /** Formatting a valid time and parsing it back gives the time. */
  lemma ParseTimeOfFormatTime(t: Time)
    requires ValidTime(t)
    ensures ParseTime(FormatTime(t)) == Some(t)
  {
    var s := FormatTime(t);
    assert s[..2] == Pad2(t.hour) && s[3..] == Pad2(t.minute);
    DigitsOfPad2(t.hour);
    DigitsOfPad2(t.minute);
  }

  /** The formatted date and time hold digits and '-' only. */
  lemma FormattedDateTimeCharacters(d: Date, t: Time)
    ensures forall i :: 0 <= i < |FormatDate(d)| ==> IsDigit(FormatDate(d)[i]) || FormatDate(d)[i] == '-'
    ensures forall i :: 0 <= i < |FormatTime(t)| ==> IsDigit(FormatTime(t)[i]) || FormatTime(t)[i] == '-'
    ensures |FormatDate(d)| == 10 && |FormatTime(t)| == 5
  {
  }

  // ---------------------------------------------------------------------------
  // Ordering: `LocalDate.compareTo`, `LocalTime.compareTo`, `LocalDateTime.compareTo`
  // ---------------------------------------------------------------------------

  /** `LocalDate.compareTo0`: the difference of the first field that differs. */
  function CompareDate(a: Date, b: Date): int {
    if a.year != b.year then a.year - b.year
    else if a.month != b.month then a.month - b.month
    else a.day - b.day
  }

  /** `Integer.compare`. */
  function CompareInt(x: int, y: int): int {
    if x < y then -1 else if x == y then 0 else 1
  }

  /** `LocalTime.compareTo` (seconds and nanoseconds are always zero here). */
  function CompareTime(a: Time, b: Time): int {
    var c := CompareInt(a.hour, b.hour);
    if c != 0 then c else CompareInt(a.minute, b.minute)
  }

  /** `LocalDateTime.compareTo0`: date first, then time of day. */
  function CompareDateTime(d1: Date, t1: Time, d2: Date, t2: Time): int {
    var c := CompareDate(d1, d2);
    if c != 0 then c else CompareTime(t1, t2)
  }

  // ---------------------------------------------------------------------------
  // Local minutes: the position of a date-time on one time line
  // ---------------------------------------------------------------------------

  /** Days in the months of year `y` before month `m`. */
  function DaysBeforeMonth(y: int, m: int): int
    decreases m
  {
    if m <= 1 then 0 else DaysBeforeMonth(y, m - 1) + DaysInMonth(y, m - 1)
  }

  function YearLength(y: int): int {
    if IsLeapYear(y) then 366 else 365
  }

  /** The length of a year is the total of its twelve months. */
  lemma YearLengthIsMonthsTotal(y: int)
    ensures YearLength(y) == DaysBeforeMonth(y, 13)
  {
  }

  /** Days from 1 January of year 0 to 1 January of year `y`. */
  function DaysBeforeYear(y: int): int
    decreases y
  {
    if y <= 0 then 0 else DaysBeforeYear(y - 1) + YearLength(y - 1)
  }

  /** Days from 1 January of year 0 to `d`. */
  function DayNumber(d: Date): int {
    DaysBeforeYear(d.year) + DaysBeforeMonth(d.year, d.month) + d.day - 1
  }

  /** Minutes from midnight of 1 January of year 0 to the local date-time. */
  function LocalMinute(d: Date, t: Time): int {
    DayNumber(d) * MINUTES_PER_DAY + t.hour * 60 + t.minute
  }

  lemma {:induction false} DaysBeforeMonthGrows(y: int, m1: int, m2: int)
    requires 1 <= m1 < m2
    ensures DaysBeforeMonth(y, m1) + DaysInMonth(y, m1) <= DaysBeforeMonth(y, m2)
    decreases m2
  {
    if m1 < m2 - 1 {
      DaysBeforeMonthGrows(y, m1, m2 - 1);
    }
  }

  lemma {:induction false} DaysBeforeYearGrows(y1: int, y2: int)
    requires 0 <= y1 < y2
    ensures DaysBeforeYear(y1) + YearLength(y1) <= DaysBeforeYear(y2)
    decreases y2
  {
    if y1 < y2 - 1 {
      DaysBeforeYearGrows(y1, y2 - 1);
    }
  }

  /** A valid date lies within its year. */
  lemma DayWithinYear(d: Date)
    requires ValidDate(d)
    ensures DaysBeforeYear(d.year) <= DayNumber(d) < DaysBeforeYear(d.year) + YearLength(d.year)
  {
    YearLengthIsMonthsTotal(d.year);
    if d.month < 12 {
      DaysBeforeMonthGrows(d.year, d.month, 13);
    }
  }

  /** Day numbers follow the calendar order of valid dates. */
  lemma DayNumberFollowsCalendar(a: Date, b: Date)
    requires ValidDate(a) && ValidDate(b)
    ensures CompareDate(a, b) < 0 <==> DayNumber(a) < DayNumber(b)
    ensures CompareDate(a, b) == 0 <==> a == b
  {
    if a.year < b.year {
      DayWithinYear(a);
      DayWithinYear(b);
      DaysBeforeYearGrows(a.year, b.year);
    } else if b.year < a.year {
      DayWithinYear(a);
      DayWithinYear(b);
      DaysBeforeYearGrows(b.year, a.year);
    } else if a.month < b.month {
      DaysBeforeMonthGrows(a.year, a.month, b.month);
    } else if b.month < a.month {
      DaysBeforeMonthGrows(a.year, b.month, a.month);
    }
  }

  /** `LocalDateTime.compareTo` orders valid date-times as their local minutes
      do, and reports 0 exactly for the same date and time. */
  lemma CompareDateTimeFollowsLocalMinute(d1: Date, t1: Time, d2: Date, t2: Time)
    requires ValidDate(d1) && ValidTime(t1) && ValidDate(d2) && ValidTime(t2)
    ensures CompareDateTime(d1, t1, d2, t2) < 0 <==> LocalMinute(d1, t1) < LocalMinute(d2, t2)
    ensures CompareDateTime(d1, t1, d2, t2) == 0 <==> d1 == d2 && t1 == t2
    ensures CompareDateTime(d1, t1, d2, t2) == 0 <==> LocalMinute(d1, t1) == LocalMinute(d2, t2)
  {
    DayNumberFollowsCalendar(d1, d2);
    DayNumberFollowsCalendar(d2, d1);
  }
}
