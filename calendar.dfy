/** Proleptic Gregorian calendar dates, the serial day numbers that JavaScript's
    `Date` compares (at local midnight), weekdays, and the `YYYY-MM-DD` text form. */
module Calendar {
  import opened Base

  datatype Date = Date(year: int, month: int, day: int)

  predicate IsLeapYear(y: int) {
    y % 4 == 0 && (y % 100 != 0 || y % 400 == 0)
  }

  function DaysInYear(y: int): int {
    if IsLeapYear(y) then 366 else 365
  }

  function DaysInMonth(y: int, m: int): (n: int)
    requires 1 <= m <= 12
    ensures 28 <= n <= 31
    ensures n == 29 <==> m == 2 && IsLeapYear(y)
  {
    if m == 2 then (if IsLeapYear(y) then 29 else 28)
    else if m == 4 || m == 6 || m == 9 || m == 11 then 30
    else 31
  }

  /** A date that exists: a month 1 to 12 and a day within that month. */
  predicate IsCalendarDate(d: Date) {
    1 <= d.month <= 12 && 1 <= d.day <= DaysInMonth(d.year, d.month)
  }

  /** Strictly earlier in the calendar. */
  predicate Precedes(a: Date, b: Date) {
    || a.year < b.year
    || (a.year == b.year && a.month < b.month)
    || (a.year == b.year && a.month == b.month && a.day < b.day)
  }

  /** Days from 0000-01-01 to 1 January of year `y`: 365 a year plus one for
      every leap year before `y`. */
  function DaysBeforeYear(y: int): int {
    365 * y + (y + 3) / 4 - (y + 99) / 100 + (y + 399) / 400
  }

  /** Days from 1 January of year `y` to the first of month `m`. */
  function DaysBeforeMonth(y: int, m: int): int
    requires 1 <= m <= 12
  {
    var common :=
      if m == 1 then 0 else if m == 2 then 31 else if m == 3 then 59
      else if m == 4 then 90 else if m == 5 then 120 else if m == 6 then 151
      else if m == 7 then 181 else if m == 8 then 212 else if m == 9 then 243
      else if m == 10 then 273 else if m == 11 then 304 else 334;
    common + (if m > 2 && IsLeapYear(y) then 1 else 0)
  }

  /** The serial number of a date: days since 0000-01-01. */
  function DayNumber(d: Date): int
    requires 1 <= d.month <= 12
  {
    DaysBeforeYear(d.year) + DaysBeforeMonth(d.year, d.month) + d.day - 1
  }

  /** The calendar day after `d`. */
  function NextDay(d: Date): (r: Date)
    requires IsCalendarDate(d)
    ensures IsCalendarDate(r) && Precedes(d, r)
  {
    if d.day < DaysInMonth(d.year, d.month) then Date(d.year, d.month, d.day + 1)
    else if d.month < 12 then Date(d.year, d.month + 1, 1)
    else Date(d.year + 1, 1, 1)
  }

  /** How many multiples of 4, 100 and 400 a one-year step passes. */
  lemma FloorSteps(y: int)
    ensures (y + 4) / 4 - (y + 3) / 4 == if y % 4 == 0 then 1 else 0
    ensures (y + 100) / 100 - (y + 99) / 100 == if y % 100 == 0 then 1 else 0
    ensures (y + 400) / 400 - (y + 399) / 400 == if y % 400 == 0 then 1 else 0
  {
    Step4(y);
    Step100(y);
    Step400(y);
  }

  lemma Step4(y: int)
    ensures (y + 4) / 4 - (y + 3) / 4 == if y % 4 == 0 then 1 else 0
  {
    var q, r := (y + 3) / 4, (y + 3) % 4;
    assert y + 3 == 4 * q + r;
    if r == 3 {
      assert y + 4 == 4 * (q + 1) && y == 4 * q;
    } else {
      assert y + 4 == 4 * q + (r + 1);
    }
  }

  lemma Step100(y: int)
    ensures (y + 100) / 100 - (y + 99) / 100 == if y % 100 == 0 then 1 else 0
  {
    var q, r := (y + 99) / 100, (y + 99) % 100;
    assert y + 99 == 100 * q + r;
    if r == 99 {
      assert y + 100 == 100 * (q + 1) && y == 100 * q;
    } else {
      assert y + 100 == 100 * q + (r + 1);
    }
  }

  lemma Step400(y: int)
    ensures (y + 400) / 400 - (y + 399) / 400 == if y % 400 == 0 then 1 else 0
  {
    var q, r := (y + 399) / 400, (y + 399) % 400;
    assert y + 399 == 400 * q + r;
    if r == 399 {
      assert y + 400 == 400 * (q + 1) && y == 400 * q;
    } else {
      assert y + 400 == 400 * q + (r + 1);
    }
  }

  /** Consecutive years are DaysInYear apart. */
  lemma DaysBeforeNextYear(y: int)
    ensures DaysBeforeYear(y + 1) == DaysBeforeYear(y) + DaysInYear(y)
  {
    FloorSteps(y);
    DivisorChain(y);
    var d4 := (y + 4) / 4 - (y + 3) / 4;
    var d100 := (y + 100) / 100 - (y + 99) / 100;
    var d400 := (y + 400) / 400 - (y + 399) / 400;
    assert DaysBeforeYear(y + 1) - DaysBeforeYear(y) == 365 + d4 - d100 + d400;
  }

  /** A multiple of 400 is one of 100, and a multiple of 100 one of 4. */
  lemma DivisorChain(y: int)
    ensures y % 400 == 0 ==> y % 100 == 0
    ensures y % 100 == 0 ==> y % 4 == 0
  {
    if y % 400 == 0 {
      CenturyOfQuadCentury(y);
    }
    if y % 100 == 0 {
      LeapOfCentury(y);
    }
  }

  lemma CenturyOfQuadCentury(y: int)
    requires y % 400 == 0
    ensures y % 100 == 0
  {
    var q := y / 400;
    assert y == 100 * (4 * q) + 0;
  }

  lemma LeapOfCentury(y: int)
    requires y % 100 == 0
    ensures y % 4 == 0
  {
    var q := y / 100;
    assert y == 4 * (25 * q) + 0;
  }

  lemma {:induction false} DaysBeforeYearMonotonic(y1: int, y2: int)
    requires y1 < y2
    ensures DaysBeforeYear(y1) + DaysInYear(y1) <= DaysBeforeYear(y2)
    decreases y2 - y1
  {
    DaysBeforeNextYear(y1);
    if y1 + 1 < y2 {
      DaysBeforeYearMonotonic(y1 + 1, y2);
    }
  }

  lemma DaysBeforeNextMonth(y: int, m: int)
    requires 1 <= m <= 12
    ensures m < 12 ==> DaysBeforeMonth(y, m + 1) == DaysBeforeMonth(y, m) + DaysInMonth(y, m)
    ensures m == 12 ==> DaysBeforeMonth(y, m) + DaysInMonth(y, m) == DaysInYear(y)
  {
  }

  /** Day numbers count days: the next day is one more. */
  lemma DayNumberNextDay(d: Date)
    requires IsCalendarDate(d)
    ensures DayNumber(NextDay(d)) == DayNumber(d) + 1
  {
    DaysBeforeNextMonth(d.year, d.month);
    if d.day == DaysInMonth(d.year, d.month) && d.month == 12 {
      DaysBeforeNextYear(d.year);
    }
  }

  /** Day numbers follow the calendar order, so comparing them (as JavaScript
      compares `getTime()` values at midnight) compares dates. */
  lemma DayNumberMonotonic(a: Date, b: Date)
    requires IsCalendarDate(a) && IsCalendarDate(b) && Precedes(a, b)
    ensures DayNumber(a) < DayNumber(b)
  {
    if a.year < b.year {
      DaysBeforeNextMonth(a.year, 12);
      assert DaysBeforeMonth(a.year, a.month) + a.day <= DaysInYear(a.year);
      DaysBeforeYearMonotonic(a.year, b.year);
    } else if a.month < b.month {
      MonthsMonotonic(a.year, a.month, b.month);
    }
  }

  lemma {:induction false} MonthsMonotonic(y: int, m1: int, m2: int)
    requires 1 <= m1 < m2 <= 12
    ensures DaysBeforeMonth(y, m1) + DaysInMonth(y, m1) <= DaysBeforeMonth(y, m2)
    decreases m2 - m1
  {
    DaysBeforeNextMonth(y, m1);
    if m1 + 1 < m2 {
      MonthsMonotonic(y, m1 + 1, m2);
    }
  }

  /** Two existing dates with the same day number are the same date. */
  lemma DayNumberInjective(a: Date, b: Date)
    requires IsCalendarDate(a) && IsCalendarDate(b) && DayNumber(a) == DayNumber(b)
    ensures a == b
  {
    if Precedes(a, b) {
      DayNumberMonotonic(a, b);
    } else if Precedes(b, a) {
      DayNumberMonotonic(b, a);
    }
  }

  /** `getDay()` of the date with serial number `n`: 0 for Sunday to 6 for
      Saturday; 0000-01-01 was a Saturday. */
  function WeekdayOfNumber(n: int): int {
    (n + 6) % 7
  }

  function Weekday(d: Date): (w: int)
    requires 1 <= d.month <= 12
    ensures 0 <= w <= 6
  {
    WeekdayOfNumber(DayNumber(d))
  }

  /** The weekdays cycle with the days. */
  lemma WeekdayNextDay(d: Date)
    requires IsCalendarDate(d)
    ensures Weekday(NextDay(d)) == (Weekday(d) + 1) % 7
  {
    DayNumberNextDay(d);
    WeekdayStep(DayNumber(d));
  }

  lemma WeekdayStep(n: int)
    ensures WeekdayOfNumber(n + 1) == (WeekdayOfNumber(n) + 1) % 7
  {
    var w := (n + 6) % 7;
    assert n + 6 == 7 * ((n + 6) / 7) + w;
    assert n + 7 == 7 * ((n + 6) / 7) + (w + 1);
    if w < 6 {
      assert (n + 7) % 7 == w + 1;
    } else {
      assert n + 7 == 7 * ((n + 6) / 7 + 1);
      assert (n + 7) % 7 == 0;
    }
  }

  lemma WeekdayAnchors()
    ensures Weekday(Date(1970, 1, 1)) == 4
    ensures Weekday(Date(2024, 6, 9)) == 0
    ensures Weekday(Date(2024, 6, 12)) == 3
  {
  }

  /** `setFullYear(d.year + k)` on a date: the month and day are kept, except
      that 29 February rolls over to 1 March in a common year. */
  function ShiftYears(d: Date, k: int): (r: Date)
    requires IsCalendarDate(d)
    ensures IsCalendarDate(r) && r.year == d.year + k
    ensures r == Date(d.year + k, d.month, d.day) || (d.month == 2 && d.day == 29 && r == Date(d.year + k, 3, 1))
  {
    var y := d.year + k;
    if d.day <= DaysInMonth(y, d.month) then Date(y, d.month, d.day)
    else Date(y, d.month + 1, d.day - DaysInMonth(y, d.month))
  }

  // ---- The YYYY-MM-DD text form ----

  predicate IsDigit(c: char) {
    '0' <= c <= '9'
  }

  function DigitValue(c: char): int {
    c as int - '0' as int
  }

  function DigitChar(k: int): (c: char)
    requires 0 <= k <= 9
    ensures IsDigit(c) && DigitValue(c) == k
  {
    ('0' as int + k) as char
  }

  /** `/^\d{4}-\d{2}-\d{2}$/.test(s)`. */
  predicate IsDateShape(s: string) {
    && |s| == 10 && s[4] == '-' && s[7] == '-'
    && IsDigit(s[0]) && IsDigit(s[1]) && IsDigit(s[2]) && IsDigit(s[3])
    && IsDigit(s[5]) && IsDigit(s[6]) && IsDigit(s[8]) && IsDigit(s[9])
  }

  /** `s.split('-').map(Number)` on a string of that shape. */
  function DateFields(s: string): Date
    requires IsDateShape(s)
  {
    Date(1000 * DigitValue(s[0]) + 100 * DigitValue(s[1]) + 10 * DigitValue(s[2]) + DigitValue(s[3]),
         10 * DigitValue(s[5]) + DigitValue(s[6]),
         10 * DigitValue(s[8]) + DigitValue(s[9]))
  }

  /** `new Date(year, month - 1, day)` gives back the same year, month and day.
      JavaScript reads years 0 to 99 as 1900 to 1999 and rolls days and
      months that overflow into the next month or year, so only real dates
      from year 100 on survive. */
  predicate SurvivesJsDate(d: Date) {
    d.year >= 100 && IsCalendarDate(d)
  }

  /** The date a `YYYY-MM-DD` string names, when it names a real one. */
  function ParseDate(s: string): (r: Option<Date>)
    ensures r.Some? ==> IsDateShape(s) && SurvivesJsDate(r.value) && r.value.year <= 9999
  {
    if IsDateShape(s) && SurvivesJsDate(DateFields(s)) then Some(DateFields(s)) else None
  }

  function TwoDigits(k: int): string
    requires 0 <= k <= 99
  {
    [DigitChar(k / 10), DigitChar(k % 10)]
  }

  function FourDigits(k: int): string
    requires 0 <= k <= 9999
  {
    var tens := k / 10;
    var hundreds := tens / 10;
    [DigitChar(hundreds / 10), DigitChar(hundreds % 10), DigitChar(tens % 10), DigitChar(k % 10)]
  }

  lemma TwoDigitsValue(k: int)
    requires 0 <= k <= 99
    ensures var s := TwoDigits(k); 10 * DigitValue(s[0]) + DigitValue(s[1]) == k
  {
  }

  lemma FourDigitsValue(k: int)
    requires 0 <= k <= 9999
    ensures var s := FourDigits(k);
      1000 * DigitValue(s[0]) + 100 * DigitValue(s[1]) + 10 * DigitValue(s[2]) + DigitValue(s[3]) == k
  {
    var tens := k / 10;
    var hundreds := tens / 10;
    assert k == 10 * tens + k % 10;
    assert tens == 10 * hundreds + tens % 10;
    assert hundreds == 10 * (hundreds / 10) + hundreds % 10;
  }

  /** The digits written for a value are the digits read. */
  lemma TwoDigitsOf(a: char, b: char)
    requires IsDigit(a) && IsDigit(b)
    ensures TwoDigits(10 * DigitValue(a) + DigitValue(b)) == [a, b]
  {
    var k := 10 * DigitValue(a) + DigitValue(b);
    assert k / 10 == DigitValue(a) && k % 10 == DigitValue(b);
    assert DigitChar(DigitValue(a)) == a && DigitChar(DigitValue(b)) == b;
  }

  lemma FourDigitsOf(a: char, b: char, c: char, d: char)
    requires IsDigit(a) && IsDigit(b) && IsDigit(c) && IsDigit(d)
    ensures FourDigits(1000 * DigitValue(a) + 100 * DigitValue(b) + 10 * DigitValue(c) + DigitValue(d)) == [a, b, c, d]
  {
    var k := 1000 * DigitValue(a) + 100 * DigitValue(b) + 10 * DigitValue(c) + DigitValue(d);
    var tens := 100 * DigitValue(a) + 10 * DigitValue(b) + DigitValue(c);
    var hundreds := 10 * DigitValue(a) + DigitValue(b);
    assert k == 10 * tens + DigitValue(d);
    assert k / 10 == tens && k % 10 == DigitValue(d);
    assert tens / 10 == hundreds && tens % 10 == DigitValue(c);
    assert hundreds / 10 == DigitValue(a) && hundreds % 10 == DigitValue(b);
    assert DigitChar(DigitValue(a)) == a && DigitChar(DigitValue(b)) == b;
    assert DigitChar(DigitValue(c)) == c && DigitChar(DigitValue(d)) == d;
  }

  /** The `YYYY-MM-DD` text of a date. */
  function FormatDate(d: Date): (s: string)
    requires 0 <= d.year <= 9999 && IsCalendarDate(d)
    ensures IsDateShape(s)
  {
    FourDigits(d.year) + "-" + TwoDigits(d.month) + "-" + TwoDigits(d.day)
  }

  /** Reading back the text of a date gives the date, for every date the
      source can hold. */
  lemma ParseFormat(d: Date)
    requires 100 <= d.year <= 9999 && IsCalendarDate(d)
    ensures ParseDate(FormatDate(d)) == Some(d)
  {
    var s := FormatDate(d);
    FourDigitsValue(d.year);
    TwoDigitsValue(d.month);
    TwoDigitsValue(d.day);
    assert s[..4] == FourDigits(d.year) && s[5..7] == TwoDigits(d.month) && s[8..] == TwoDigits(d.day);
    assert DateFields(s) == d;
  }

  /** A string the parser accepts is the text of the date it names. */
  lemma FormatParse(s: string)
    requires ParseDate(s).Some?
    ensures FormatDate(ParseDate(s).value) == s
  {
    var d := ParseDate(s).value;
    FourDigitsOf(s[0], s[1], s[2], s[3]);
    TwoDigitsOf(s[5], s[6]);
    TwoDigitsOf(s[8], s[9]);
    assert s == s[..4] + "-" + s[5..7] + "-" + s[8..];
  }

  /** The first seven characters of the text, `YYYY-MM`, name the year and the month. */
  lemma MonthPrefix(a: Date, b: Date)
    requires 0 <= a.year <= 9999 && IsCalendarDate(a)
    requires 0 <= b.year <= 9999 && IsCalendarDate(b)
    ensures FormatDate(a)[..7] == FormatDate(b)[..7] <==> a.year == b.year && a.month == b.month
  {
    var p, q := FormatDate(a)[..7], FormatDate(b)[..7];
    assert p == FourDigits(a.year) + "-" + TwoDigits(a.month);
    assert q == FourDigits(b.year) + "-" + TwoDigits(b.month);
    if p == q {
      FourDigitsValue(a.year);
      FourDigitsValue(b.year);
      TwoDigitsValue(a.month);
      TwoDigitsValue(b.month);
      assert FourDigits(a.year) == p[..4] == FourDigits(b.year);
      assert TwoDigits(a.month) == p[5..7] == TwoDigits(b.month);
    }
  }
}
