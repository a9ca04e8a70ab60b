/**
 * The part of .NET's `DateTime` that the validator relies on: a calendar
 * date and time of day with a `Kind`, its instant on the tick scale
 * (`DateTime` compares instants by `Ticks`), and the custom format
 * `MM/dd/yyyy` with `/` as the date separator.
 */
module DateTimes {
  import opened Text

  /** `DateTimeKind`. */
  datatype DateTimeKind = Unspecified | Utc | Local

  /**
   * A `DateTime`: proleptic Gregorian date, time of day, and the ticks
   * (100 ns) below one second.
   */
  datatype DateTime = DateTime(
    year: int, month: int, day: int,
    hour: int, minute: int, second: int, subTicks: int,
    kind: DateTimeKind)

  const TicksPerSecond: int := 10_000_000

  predicate IsLeapYear(y: int) {
    y % 4 == 0 && (y % 100 != 0 || y % 400 == 0)
  }

  function DaysInMonth(y: int, m: int): int
    requires 1 <= m <= 12
  {
    if m == 2 then (if IsLeapYear(y) then 29 else 28)
    else if m == 4 || m == 6 || m == 9 || m == 11 then 30
    else 31
  }

  /** The values a `DateTime` can hold: years 1 to 9999 and in-range fields. */
  predicate ValidDateTime(d: DateTime) {
    && 1 <= d.year <= 9999
    && 1 <= d.month <= 12
    && 1 <= d.day <= DaysInMonth(d.year, d.month)
    && 0 <= d.hour < 24 && 0 <= d.minute < 60 && 0 <= d.second < 60
    && 0 <= d.subTicks < TicksPerSecond
  }

  /** Days from 0001-01-01 to the first day of year `y`. */
  function DaysBeforeYear(y: int): int
    requires y >= 1
  {
    var p := y - 1;
    365 * p + p / 4 - p / 100 + p / 400
  }

  /** Days from the first of the year to the first of each month. */
  const DaysToMonth365: seq<int> := [0, 31, 59, 90, 120, 151, 181, 212, 243, 273, 304, 334]
  const DaysToMonth366: seq<int> := [0, 31, 60, 91, 121, 152, 182, 213, 244, 274, 305, 335]

  /** Days from the first of the year to the first of month `m`. */
  function DaysBeforeMonth(y: int, m: int): int
    requires 1 <= m <= 12
  {
    (if IsLeapYear(y) then DaysToMonth366 else DaysToMonth365)[m - 1]
  }

  function DayNumber(d: DateTime): int
    requires ValidDateTime(d)
  {
    DaysBeforeYear(d.year) + DaysBeforeMonth(d.year, d.month) + d.day - 1
  }

  /** `DateTime.Ticks`: the instant as ticks since 0001-01-01T00:00:00. */
  function Ticks(d: DateTime): int
    requires ValidDateTime(d)
  {
    (((DayNumber(d) * 24 + d.hour) * 60 + d.minute) * 60 + d.second) * TicksPerSecond + d.subTicks
  }

  /** `d1 >= d2` on `DateTime`: a comparison of ticks that ignores `Kind`. */
  predicate OnOrAfter(d1: DateTime, d2: DateTime)
    requires ValidDateTime(d1) && ValidDateTime(d2)
  {
    Ticks(d1) >= Ticks(d2)
  }

  /** Strict calendar order: by year, then month, day, hour, minute, second, ticks. */
  predicate CalendarBefore(a: DateTime, b: DateTime) {
    || a.year < b.year
    || (a.year == b.year && a.month < b.month)
    || (a.year == b.year && a.month == b.month && a.day < b.day)
    || (a.year == b.year && a.month == b.month && a.day == b.day && a.hour < b.hour)
    || (a.year == b.year && a.month == b.month && a.day == b.day && a.hour == b.hour
        && a.minute < b.minute)
    || (a.year == b.year && a.month == b.month && a.day == b.day && a.hour == b.hour
        && a.minute == b.minute && a.second < b.second)
    || (a.year == b.year && a.month == b.month && a.day == b.day && a.hour == b.hour
        && a.minute == b.minute && a.second == b.second && a.subTicks < b.subTicks)
  }

  function DaysInYear(y: int): int {
    if IsLeapYear(y) then 366 else 365
  }

  /** Each year adds its own length to the day count. */
  lemma DaysBeforeYearStep(y: int)
    requires y >= 1
    ensures DaysBeforeYear(y + 1) == DaysBeforeYear(y) + DaysInYear(y)
  {
    var p := y - 1;
    assert DaysBeforeYear(y + 1) == 365 * y + y / 4 - y / 100 + y / 400;
    assert DaysBeforeYear(y) == 365 * p + p / 4 - p / 100 + p / 400;
    QuotientStep4(y);
    QuotientStep100(y);
    QuotientStep400(y);
    CenturiesDivisible(y);
    if y % 4 != 0 {
      assert !IsLeapYear(y);
    } else if y % 100 != 0 {
      assert IsLeapYear(y);
    } else if y % 400 != 0 {
      assert !IsLeapYear(y);
    } else {
      assert IsLeapYear(y);
    }
  }

  /** A multiple of 400 is a multiple of 100, and a multiple of 100 one of 4. */
  lemma CenturiesDivisible(y: int)
    ensures y % 400 == 0 ==> y % 100 == 0
    ensures y % 100 == 0 ==> y % 4 == 0
  {
    if y % 400 == 0 {
      assert y == 400 * (y / 400);
      assert y == 100 * (4 * (y / 400));
    }
    if y % 100 == 0 {
      assert y == 100 * (y / 100);
      assert y == 4 * (25 * (y / 100));
    }
  }

  /** The number of leap-year candidates up to `y` goes up by one exactly at a multiple of 4. */
  lemma QuotientStep4(y: int)
    requires y >= 1
    ensures y / 4 - (y - 1) / 4 == if y % 4 == 0 then 1 else 0
  { }

  /** Likewise for the centuries, which are not leap years. */
  lemma QuotientStep100(y: int)
    requires y >= 1
    ensures y / 100 - (y - 1) / 100 == if y % 100 == 0 then 1 else 0
  { }

  /** Likewise for the four-hundredth years, which are leap years again. */
  lemma QuotientStep400(y: int)
    requires y >= 1
    ensures y / 400 - (y - 1) / 400 == if y % 400 == 0 then 1 else 0
  { }

  lemma {:induction false} DaysBeforeYearGrows(y: int, z: int)
    requires 1 <= y < z
    ensures DaysBeforeYear(y) + DaysInYear(y) <= DaysBeforeYear(z)
    decreases z - y
  {
    DaysBeforeYearStep(y);
    if y + 1 < z {
      DaysBeforeYearGrows(y + 1, z);
      DaysBeforeYearStep(y + 1);
    }
  }

  /** Each month starts where the previous one ends. */
  lemma DaysBeforeMonthStep(y: int, m: int)
    requires 1 <= m < 12
    ensures DaysBeforeMonth(y, m + 1) == DaysBeforeMonth(y, m) + DaysInMonth(y, m)
  {
  }

  lemma {:induction false} DaysBeforeMonthGrows(y: int, m: int, n: int)
    requires 1 <= m < n <= 12
    ensures DaysBeforeMonth(y, m) + DaysInMonth(y, m) <= DaysBeforeMonth(y, n)
    decreases n
  {
    DaysBeforeMonthStep(y, n - 1);
    if m < n - 1 {
      DaysBeforeMonthGrows(y, m, n - 1);
    }
  }

  lemma DaysBeforeMonthInYear(y: int, m: int)
    requires 1 <= m <= 12
    ensures 0 <= DaysBeforeMonth(y, m)
    ensures DaysBeforeMonth(y, m) + DaysInMonth(y, m) <= DaysInYear(y)
  {
    if m < 12 {
      DaysBeforeMonthGrows(y, m, 12);
    }
  }

  /** An earlier calendar day has a smaller day number. */
  lemma DayNumberFollowsCalendar(a: DateTime, b: DateTime)
    requires ValidDateTime(a) && ValidDateTime(b)
    requires || a.year < b.year
             || (a.year == b.year && a.month < b.month)
             || (a.year == b.year && a.month == b.month && a.day < b.day)
    ensures DayNumber(a) < DayNumber(b)
  {
    if a.year < b.year {
      DaysBeforeMonthInYear(a.year, a.month);
      DaysBeforeMonthInYear(b.year, b.month);
      DaysBeforeYearGrows(a.year, b.year);
    } else if a.month < b.month {
      DaysBeforeMonthGrows(a.year, a.month, b.month);
    }
  }

  /** Tick order agrees with calendar order. */
  lemma TicksFollowCalendar(a: DateTime, b: DateTime)
    requires ValidDateTime(a) && ValidDateTime(b)
    requires CalendarBefore(a, b)
    ensures Ticks(a) < Ticks(b)
  {
    if a.year != b.year || a.month != b.month || a.day != b.day {
      DayNumberFollowsCalendar(a, b);
    }
  }

  /**
   * `>=` on `DateTime`, a comparison of tick counts, is "not earlier in the
   * calendar": the same instant counts as on or after itself.
   */
  lemma OnOrAfterIsCalendarOrder(a: DateTime, b: DateTime)
    requires ValidDateTime(a) && ValidDateTime(b)
    ensures OnOrAfter(a, b) <==> !CalendarBefore(a, b)
  {
    if CalendarBefore(a, b) {
      TicksFollowCalendar(a, b);
    } else if CalendarBefore(b, a) {
      TicksFollowCalendar(b, a);
    }
  }

  /**
   * `{d:MM/dd/yyyy}`: two-digit month, two-digit day and four-digit year,
   * separated by `/`.
   */
  function FormatMonthDayYear(d: DateTime): (r: string)
    requires ValidDateTime(d)
    ensures |r| == 10 && r[2] == '/' && r[5] == '/'
    ensures forall i :: 0 <= i < 10 && i != 2 && i != 5 ==> IsDigit(r[i])
    ensures DecimalValue(r[0..2]) == d.month
    ensures DecimalValue(r[3..5]) == d.day
    ensures DecimalValue(r[6..10]) == d.year
  {
    var mm := ZeroPad(d.month, 2);
    var dd := ZeroPad(d.day, 2);
    var yyyy := ZeroPad(d.year, 4);
    PadWidth(d.month, 2);
    PadWidth(d.day, 2);
    PadWidth(d.year, 4);
    SlashedFields(mm, dd, yyyy);
    mm + "/" + dd + "/" + yyyy
  }

  /** A number below 10^k, padded to width k, is exactly k digits. */
  lemma PadWidth(n: nat, k: nat)
    requires 0 < k && n < Pow10(k)
    ensures |ZeroPad(n, k)| == k
  {
    NumeralLength(n, k);
  }

  /** Where the three fields of `mm/dd/yyyy` sit. */
  lemma SlashedFields(mm: string, dd: string, yyyy: string)
    requires |mm| == 2 && |dd| == 2 && |yyyy| == 4
    ensures var r := mm + "/" + dd + "/" + yyyy;
      && |r| == 10 && r[2] == '/' && r[5] == '/'
      && r[0..2] == mm && r[3..5] == dd && r[6..10] == yyyy
      && r[0] == mm[0] && r[1] == mm[1] && r[3] == dd[0] && r[4] == dd[1]
      && r[6] == yyyy[0] && r[7] == yyyy[1] && r[8] == yyyy[2] && r[9] == yyyy[3]
  {
  }

  function Pow10(k: nat): nat {
    if k == 0 then 1 else 10 * Pow10(k - 1)
  }

  /** A number below 10^k has a numeral of at most k digits. */
  lemma {:induction false} NumeralLength(n: nat, k: nat)
    requires k > 0 && n < Pow10(k)
    ensures |NatToString(n)| <= k
  {
    if n >= 10 {
      assert k > 1 && n < 10 * Pow10(k - 1);
      NumeralLength(n / 10, k - 1);
      assert NatToString(n) == NatToString(n / 10) + [DigitChar(n % 10)];
    }
  }
}
