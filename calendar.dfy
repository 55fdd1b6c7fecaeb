/**
 * The slice of Python's `datetime` the schedule relies on: proleptic
 * Gregorian dates in years 1..9999, times of day to the minute (the schedule
 * never produces seconds), `datetime.combine`, adding `timedelta(hours=1)`
 * (with its `OverflowError` past the last representable day) and
 * `isoformat()`.
 */
module Calendar {
  import opened Wrappers
  import opened Text

  /** `datetime.MINYEAR` and `datetime.MAXYEAR`. */
  const MinYear := 1
  const MaxYear := 9999

  predicate IsLeapYear(y: int) {
    y % 4 == 0 && (y % 100 != 0 || y % 400 == 0)
  }

  function DaysInMonth(y: int, m: int): (n: int)
    requires 1 <= m <= 12
    ensures 28 <= n <= 31
    ensures n == 29 <==> m == 2 && IsLeapYear(y)
  {
    if m == 2 then (if IsLeapYear(y) then 29 else 28)
    else if m == 4 || m == 6 || m == 9 || m == 11 then 30
    else 31
  }

  function DaysInYear(y: int): int {
    if IsLeapYear(y) then 366 else 365
  }

  datatype Date = Date(year: int, month: int, day: int)

  /** The dates the `date` constructor accepts; any other raises `ValueError`. */
  predicate ValidDate(d: Date) {
    && MinYear <= d.year <= MaxYear
    && 1 <= d.month <= 12
    && 1 <= d.day <= DaysInMonth(d.year, d.month)
  }

  /**
   * The Gregorian rule: a leap year is divisible by 4, every year divisible
   * by 400 is one, and the other century years are not, so 1900 is not.
   */
  lemma LeapYearRule(y: int)
    ensures IsLeapYear(y) ==> y % 4 == 0
    ensures y % 400 == 0 ==> IsLeapYear(y)
    ensures y % 100 == 0 && y % 400 != 0 ==> !IsLeapYear(y)
    ensures !IsLeapYear(1900) && IsLeapYear(2000) && IsLeapYear(2024)
  {
  }

  /**
   * A valid date has a day from 1 to 31, at most 30 in April, June,
   * September and November, and is February 29 only in a leap year.
   */
  lemma ValidDateBounds(d: Date)
    requires ValidDate(d)
    ensures 1 <= d.day <= 31
    ensures d.month == 4 || d.month == 6 || d.month == 9 || d.month == 11 ==> d.day <= 30
    ensures d.month == 2 ==> d.day <= 29 && (d.day == 29 ==> IsLeapYear(d.year))
  {
  }

  datatype TimeOfDay = TimeOfDay(hour: int, minute: int)

  predicate ValidTime(t: TimeOfDay) {
    0 <= t.hour <= 23 && 0 <= t.minute <= 59
  }

  /** A naive `datetime` whose seconds and microseconds are zero. */
  datatype DateTime = DateTime(date: Date, time: TimeOfDay)

  predicate ValidDateTime(dt: DateTime) {
    ValidDate(dt.date) && ValidTime(dt.time)
  }

  /** `datetime.combine(d, t)`: the date part of one value with the time-of-day part of another. */
  function Combine(d: Date, t: TimeOfDay): (dt: DateTime)
    requires ValidDate(d) && ValidTime(t)
    ensures ValidDateTime(dt)
    ensures dt.date.year == d.year && dt.date.month == d.month && dt.date.day == d.day
    ensures dt.time.hour == t.hour && dt.time.minute == t.minute
  {
    DateTime(d, t)
  }

  // ---------------------------------------------------------------------------
  // Ordinals: a reference numbering of days and minutes, independent of the
  // field-by-field rollover below.
  // ---------------------------------------------------------------------------

  function DaysBeforeYear(y: int): nat
    requires y >= MinYear
    decreases y
  {
    if y == MinYear then 0 else DaysBeforeYear(y - 1) + DaysInYear(y - 1)
  }

  function DaysBeforeMonth(y: int, m: int): nat
    requires 1 <= m <= 12
  {
    [0, 31, 59, 90, 120, 151, 181, 212, 243, 273, 304, 334][m - 1]
      + (if m > 2 && IsLeapYear(y) then 1 else 0)
  }

  /** `date.toordinal()`: 0001-01-01 is day 1. */
  function DayOrdinal(d: Date): int
    requires ValidDate(d)
  {
    DaysBeforeYear(d.year) + DaysBeforeMonth(d.year, d.month) + d.day
  }

  /** Minutes since 0001-01-01T00:00 counted from minute 1440 (an affine shift of the true count). */
  function MinuteOrdinal(dt: DateTime): int
    requires ValidDateTime(dt)
  {
    (DayOrdinal(dt.date) * 24 + dt.time.hour) * 60 + dt.time.minute
  }

  lemma MonthStep(y: int, m: int)
    requires 1 <= m <= 12
    ensures m < 12 ==> DaysBeforeMonth(y, m) + DaysInMonth(y, m) == DaysBeforeMonth(y, m + 1)
    ensures m == 12 ==> DaysBeforeMonth(y, m) + DaysInMonth(y, m) == DaysInYear(y)
  {
  }

  lemma {:induction false} DaysBeforeMonthMonotone(y: int, m: int, m': int)
    requires 1 <= m < m' <= 12
    ensures DaysBeforeMonth(y, m) + DaysInMonth(y, m) <= DaysBeforeMonth(y, m')
    decreases m' - m
  {
    MonthStep(y, m);
    if m + 1 < m' {
      DaysBeforeMonthMonotone(y, m + 1, m');
    }
  }

  lemma {:induction false} DaysBeforeYearMonotone(y: int, y': int)
    requires MinYear <= y < y'
    ensures DaysBeforeYear(y) + DaysInYear(y) <= DaysBeforeYear(y')
    decreases y' - y
  {
    if y + 1 < y' {
      DaysBeforeYearMonotone(y + 1, y');
    }
  }

  /** Lexicographic order on dates: the order of the calendar. */
  predicate DateBefore(a: Date, b: Date) {
    || a.year < b.year
    || (a.year == b.year && a.month < b.month)
    || (a.year == b.year && a.month == b.month && a.day < b.day)
  }

  /** The ordinal numbers dates in calendar order, so no two valid dates share one. */
  lemma DayOrdinalMonotone(a: Date, b: Date)
    requires ValidDate(a) && ValidDate(b) && DateBefore(a, b)
    ensures DayOrdinal(a) < DayOrdinal(b)
  {
    if a.year < b.year {
      if a.month < 12 {
        DaysBeforeMonthMonotone(a.year, a.month, 12);
      }
      MonthStep(a.year, 12);
      DaysBeforeYearMonotone(a.year, b.year);
    } else if a.month < b.month {
      DaysBeforeMonthMonotone(a.year, a.month, b.month);
    }
  }

  lemma DayOrdinalInjective(a: Date, b: Date)
    requires ValidDate(a) && ValidDate(b) && DayOrdinal(a) == DayOrdinal(b)
    ensures a == b
  {
    if DateBefore(a, b) {
      DayOrdinalMonotone(a, b);
    } else if DateBefore(b, a) {
      DayOrdinalMonotone(b, a);
    }
  }

  lemma MinuteOrdinalInjective(a: DateTime, b: DateTime)
    requires ValidDateTime(a) && ValidDateTime(b) && MinuteOrdinal(a) == MinuteOrdinal(b)
    ensures a == b
  {
    var oa, ob := DayOrdinal(a.date), DayOrdinal(b.date);
    assert oa * 1440 <= MinuteOrdinal(a) < oa * 1440 + 1440;
    assert ob * 1440 <= MinuteOrdinal(b) < ob * 1440 + 1440;
    assert oa == ob;
    DayOrdinalInjective(a.date, b.date);
  }

  // ---------------------------------------------------------------------------
  // Adding one hour.
  // ---------------------------------------------------------------------------

  /** The last day a `date` can hold. */
  const LastDate := Date(MaxYear, 12, 31)

  /** The day after `d`, or `None` past `LastDate` (where `date` arithmetic overflows). */
  function NextDay(d: Date): (r: Option<Date>)
    requires ValidDate(d)
    ensures r.None? <==> d == LastDate
    ensures r.Some? ==> ValidDate(r.value) && DayOrdinal(r.value) == DayOrdinal(d) + 1
  {
    MonthStep(d.year, d.month);
    if d.day < DaysInMonth(d.year, d.month) then Some(Date(d.year, d.month, d.day + 1))
    else if d.month < 12 then Some(Date(d.year, d.month + 1, 1))
    else if d.year < MaxYear then Some(Date(d.year + 1, 1, 1))
    else None
  }

  /**
   * `dt + timedelta(hours=1)`: the hour rolls into the next day, month and
   * year as needed; `None` is the `OverflowError` raised in the last hour of
   * `LastDate`.
   */
  function AddHour(dt: DateTime): (r: Option<DateTime>)
    requires ValidDateTime(dt)
    ensures r.None? <==> dt.date == LastDate && dt.time.hour == 23
    ensures r.Some? ==> ValidDateTime(r.value) && MinuteOrdinal(r.value) == MinuteOrdinal(dt) + 60
  {
    var t := dt.time;
    if t.hour < 23 then Some(DateTime(dt.date, TimeOfDay(t.hour + 1, t.minute)))
    else match NextDay(dt.date)
      case None => None
      case Some(next) => Some(DateTime(next, TimeOfDay(0, t.minute)))
  }

  /** Whatever valid value lies exactly sixty minutes after `dt` is the one `AddHour` gives. */
  lemma AddHourUnique(dt: DateTime, later: DateTime)
    requires ValidDateTime(dt) && ValidDateTime(later)
    requires MinuteOrdinal(later) == MinuteOrdinal(dt) + 60
    ensures AddHour(dt) == Some(later)
  {
    if AddHour(dt).Some? {
      MinuteOrdinalInjective(AddHour(dt).value, later);
    } else {
      assert DayOrdinal(later.date) > DayOrdinal(LastDate);
      if later.date != LastDate {
        DayOrdinalMonotone(later.date, LastDate);
      }
      assert false;
    }
  }

  // ---------------------------------------------------------------------------
  // ISO 8601 text.
  // ---------------------------------------------------------------------------

  /** `dt.isoformat()` for a value with zero seconds and microseconds: `YYYY-MM-DDTHH:MM:SS`. */
  function IsoFormat(dt: DateTime): (s: string)
    requires ValidDateTime(dt)
    ensures |s| == 19
  {
    Pad4(dt.date.year) + "-" + Pad2(dt.date.month) + "-" + Pad2(dt.date.day)
      + "T" + Pad2(dt.time.hour) + ":" + Pad2(dt.time.minute) + ":" + Pad2(0)
  }

  /** A reader for `YYYY-MM-DDTHH:MM:SSZ` text whose seconds are zero: the inverse of `IsoFormat(dt) + "Z"`. */
  function ParseIsoUtc(s: string): (r: Option<DateTime>)
    ensures r.Some? ==> ValidDateTime(r.value)
  {
    if |s| == 20 && s[4] == '-' && s[7] == '-' && s[10] == 'T' && s[13] == ':' && s[16] == ':'
       && s[17..19] == "00" && s[19] == 'Z'
       && AllDigits(s[..4]) && AllDigits(s[5..7]) && AllDigits(s[8..10])
       && AllDigits(s[11..13]) && AllDigits(s[14..16])
    then
      var dt := DateTime(
        Date(DigitsValue(s[..4]), DigitsValue(s[5..7]), DigitsValue(s[8..10])),
        TimeOfDay(DigitsValue(s[11..13]), DigitsValue(s[14..16])));
      if ValidDateTime(dt) then Some(dt) else None
    else None
  }

  lemma IsoRoundTrip(dt: DateTime)
    requires ValidDateTime(dt)
    ensures ParseIsoUtc(IsoFormat(dt) + "Z") == Some(dt)
  {
    var s := IsoFormat(dt) + "Z";
    var y, mo, d := Pad4(dt.date.year), Pad2(dt.date.month), Pad2(dt.date.day);
    var h, mi := Pad2(dt.time.hour), Pad2(dt.time.minute);
    assert s == y + "-" + mo + "-" + d + "T" + h + ":" + mi + ":" + "00" + "Z";
    assert s[..4] == y;
    assert s[5..7] == mo;
    assert s[8..10] == d;
    assert s[11..13] == h;
    assert s[14..16] == mi;
    assert s[17..19] == "00";
  }
}
