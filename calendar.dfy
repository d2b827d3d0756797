/**
 * Local-time calendar arithmetic used by the attendance commands.
 *
 * An instant is an integer number of milliseconds on the bot's single fixed
 * local timeline, counted from 1970-01-01 00:00:00.000 local time. A day
 * number counts whole days from that same origin (day 0 is Thursday
 * 1970-01-01). The calendar is the proleptic Gregorian one, as in
 * ECMAScript's Date.
 */
module Calendar {

  const MsPerSecond: int := 1000
  const MsPerMinute: int := 60_000
  const MsPerHour: int := 3_600_000
  const MsPerDay: int := 86_400_000

  /** The local calendar day an instant falls on. */
  function DayOf(t: int): int
  {
    t / MsPerDay
  }

  /** Milliseconds elapsed since local midnight. */
  function TimeOfDay(t: int): (ms: int)
    ensures 0 <= ms < MsPerDay
    ensures t == DayOf(t) * MsPerDay + ms
  {
    t % MsPerDay
  }

  /** The instant at a given day number and time of day. */
  function At(day: int, ms: int): int
  {
    day * MsPerDay + ms
  }

  /** An instant is determined by its day and its time of day, and both come back out of At. */
  lemma AtRoundTrip(day: int, ms: int)
    requires 0 <= ms < MsPerDay
    ensures DayOf(At(day, ms)) == day && TimeOfDay(At(day, ms)) == ms
  {
  }

  /** Date.prototype.setHours(h, m, s, ms): same local day, new time of day (MakeTime). */
  function SetHours(t: int, h: int, m: int, s: int, ms: int): int
  {
    At(DayOf(t), h * MsPerHour + m * MsPerMinute + s * MsPerSecond + ms)
  }

  /** setHours(0, 0, 0, 0) */
  function StartOfDay(t: int): int
  {
    SetHours(t, 0, 0, 0, 0)
  }

  /** setHours(23, 59, 59, 999) */
  function EndOfDay(t: int): int
  {
    SetHours(t, 23, 59, 59, 999)
  }

  /**
   * The inclusive window [setHours(0,0,0,0), setHours(23,59,59,999)] holds
   * exactly the instants of the same local day, no more and no fewer.
   */
  lemma DayWindow(t: int, u: int)
    ensures StartOfDay(t) <= u <= EndOfDay(t) <==> DayOf(u) == DayOf(t)
  {
    var _ := TimeOfDay(u);
  }

  /** From midnight of day a to the last millisecond of day b: exactly the instants of days a..b. */
  lemma DaysWindow(a: int, b: int, u: int)
    ensures At(a, 0) <= u <= At(b, MsPerDay - 1) <==> a <= DayOf(u) <= b
  {
    var _ := TimeOfDay(u);
  }

  /** Later instants never fall on earlier days. */
  lemma DayOfMonotone(a: int, b: int)
    requires a <= b
    ensures DayOf(a) <= DayOf(b)
  {
  }

  // ---------------------------------------------------------------------
  // Gregorian calendar

  predicate IsLeapYear(y: int)
  {
    y % 4 == 0 && (y % 100 != 0 || y % 400 == 0)
  }

  function DaysInYear(y: int): int
  {
    if IsLeapYear(y) then 366 else 365
  }

  /** Length of month m (1 = January) of year y. */
  function DaysInMonth(y: int, m: int): (n: int)
    requires 1 <= m <= 12
    ensures 28 <= n <= 31
    ensures n == 29 <==> m == 2 && IsLeapYear(y)
  {
    if m == 2 then (if IsLeapYear(y) then 29 else 28)
    else if m == 4 || m == 6 || m == 9 || m == 11 then 30
    else 31
  }

  /** Days of year y that lie before the first of month m (m == 13 means the whole year). */
  function DaysBeforeMonth(y: int, m: int): (n: int)
    requires 1 <= m <= 13
    ensures 28 * (m - 1) <= n <= 31 * (m - 1)
  {
    if m == 1 then 0 else DaysBeforeMonth(y, m - 1) + DaysInMonth(y, m - 1)
  }

  /** The twelve months add up to the length of the year. */
  lemma MonthsFillYear(y: int)
    ensures DaysBeforeMonth(y, 13) == DaysInYear(y)
  {
    var leap := if IsLeapYear(y) then 1 else 0;
    assert DaysBeforeMonth(y, 2) == 31;
    assert DaysBeforeMonth(y, 3) == 59 + leap;
    assert DaysBeforeMonth(y, 4) == 90 + leap;
    assert DaysBeforeMonth(y, 5) == 120 + leap;
    assert DaysBeforeMonth(y, 6) == 151 + leap;
    assert DaysBeforeMonth(y, 7) == 181 + leap;
    assert DaysBeforeMonth(y, 8) == 212 + leap;
    assert DaysBeforeMonth(y, 9) == 243 + leap;
    assert DaysBeforeMonth(y, 10) == 273 + leap;
    assert DaysBeforeMonth(y, 11) == 304 + leap;
    assert DaysBeforeMonth(y, 12) == 334 + leap;
  }

  lemma DaysBeforeMonthMonotone(y: int, m1: int, m2: int)
    requires 1 <= m1 < m2 <= 13
    ensures DaysBeforeMonth(y, m1) + DaysInMonth(y, m1) <= DaysBeforeMonth(y, m2)
    decreases m2 - m1
  {
    if m1 + 1 < m2 {
      DaysBeforeMonthMonotone(y, m1 + 1, m2);
    }
  }

  /** Day number of January 1st of year y, counted year by year from 1970. */
  function YearStart(y: int): int
    decreases if y >= 1970 then y - 1970 else 1970 - y
  {
    if y == 1970 then 0
    else if y > 1970 then YearStart(y - 1) + DaysInYear(y - 1)
    else YearStart(y + 1) - DaysInYear(y)
  }

  /** Consecutive years are one year-length apart. */
  lemma YearStartStep(y: int)
    ensures YearStart(y + 1) == YearStart(y) + DaysInYear(y)
  {
  }

  /** Number of leap years among 1..y (shifted consistently for y <= 0). */
  function LeapsThrough(y: int): int
  {
    y / 4 - y / 100 + y / 400
  }

  lemma DivStep4(x: int)
    ensures x / 4 - (x - 1) / 4 == if x % 4 == 0 then 1 else 0
  {
  }

  lemma DivStep100(x: int)
    ensures x / 100 - (x - 1) / 100 == if x % 100 == 0 then 1 else 0
  {
  }

  lemma DivStep400(x: int)
    ensures x / 400 - (x - 1) / 400 == if x % 400 == 0 then 1 else 0
  {
  }

  lemma DivisibleDown(y: int)
    ensures y % 400 == 0 ==> y % 100 == 0
    ensures y % 100 == 0 ==> y % 4 == 0
  {
  }

  /** Each year adds one to the leap count exactly when it is a leap year. */
  lemma LeapsStep(y: int)
    ensures LeapsThrough(y) == LeapsThrough(y - 1) + (if IsLeapYear(y) then 1 else 0)
  {
    DivStep4(y);
    DivStep100(y);
    DivStep400(y);
    DivisibleDown(y);
  }

  /** The closed form: 365 days a year plus one per leap year since 1970. */
  lemma {:induction false} YearStartClosedForm(y: int)
    ensures YearStart(y) == 365 * (y - 1970) + LeapsThrough(y - 1) - LeapsThrough(1969)
    decreases if y >= 1970 then y - 1970 else 1970 - y
  {
    if y > 1970 {
      YearStartClosedForm(y - 1);
      LeapsStep(y - 1);
    } else if y < 1970 {
      YearStartClosedForm(y + 1);
      LeapsStep(y);
    }
  }

  lemma {:induction false} YearStartMonotone(y1: int, y2: int)
    requires y1 < y2
    ensures YearStart(y1 + 1) <= YearStart(y2)
    decreases y2 - y1
  {
    if y1 + 1 < y2 {
      YearStartMonotone(y1 + 1, y2);
      YearStartStep(y1 + 1);
    }
  }

  datatype Date = Date(year: int, month: int, day: int)

  /** A real calendar date: month 1..12, day within that month. */
  predicate ValidDate(c: Date)
  {
    1 <= c.month <= 12 && 1 <= c.day <= DaysInMonth(c.year, c.month)
  }

  /** Day number of a civil date; the day of month may lie outside the month (it just counts on). */
  function DaysFromCivil(y: int, m: int, d: int): int
    requires 1 <= m <= 12
  {
    YearStart(y) + DaysBeforeMonth(y, m) + d - 1
  }

  /** The day number of a valid date lies within its own year. */
  lemma DateInYear(c: Date)
    requires ValidDate(c)
    ensures YearStart(c.year) <= DaysFromCivil(c.year, c.month, c.day) < YearStart(c.year + 1)
  {
    YearStartStep(c.year);
    MonthsFillYear(c.year);
    DaysBeforeMonthMonotone(c.year, c.month, 13);
  }

  /** Search for the year holding day number dn, starting from year y. */
  function YearFrom(dn: int, y: int): (r: int)
    ensures YearStart(r) <= dn < YearStart(r + 1)
    decreases (if dn < YearStart(y) then YearStart(y) - dn else 0)
            + (if dn >= YearStart(y + 1) then dn - YearStart(y + 1) + 1 else 0)
  {
    YearStartStep(y - 1);
    YearStartStep(y);
    YearStartStep(y + 1);
    if dn < YearStart(y) then YearFrom(dn, y - 1)
    else if dn >= YearStart(y + 1) then YearFrom(dn, y + 1)
    else y
  }

  /** Search for the month of year y holding day-of-year doy, starting from month m. */
  function MonthFrom(y: int, doy: int, m: int): (r: int)
    requires 1 <= m <= 12
    requires DaysBeforeMonth(y, m) <= doy < DaysInYear(y)
    ensures m <= r <= 12
    ensures DaysBeforeMonth(y, r) <= doy < DaysBeforeMonth(y, r) + DaysInMonth(y, r)
    decreases 12 - m
  {
    MonthsFillYear(y);
    if doy < DaysBeforeMonth(y, m) + DaysInMonth(y, m) then m else MonthFrom(y, doy, m + 1)
  }

  /** The civil date of a day number (getFullYear, getMonth + 1, getDate). */
  function CivilFromDays(dn: int): (c: Date)
    ensures ValidDate(c)
    ensures DaysFromCivil(c.year, c.month, c.day) == dn
  {
    var y := YearFrom(dn, 1970);
    YearStartStep(y);
    var m := MonthFrom(y, dn - YearStart(y), 1);
    Date(y, m, dn - YearStart(y) - DaysBeforeMonth(y, m) + 1)
  }

  /** Every valid date comes back out of CivilFromDays unchanged. */
  lemma CivilRoundTrip(c: Date)
    requires ValidDate(c)
    ensures CivilFromDays(DaysFromCivil(c.year, c.month, c.day)) == c
  {
    var dn := DaysFromCivil(c.year, c.month, c.day);
    var r := CivilFromDays(dn);
    DateInYear(c);
    DateInYear(r);
    if r.year < c.year {
      YearStartMonotone(r.year, c.year);
    } else if c.year < r.year {
      YearStartMonotone(c.year, r.year);
    }
    assert r.year == c.year;
    if r.month < c.month {
      DaysBeforeMonthMonotone(c.year, r.month, c.month);
    } else if c.month < r.month {
      DaysBeforeMonthMonotone(c.year, c.month, r.month);
    }
  }

  /** Date.prototype.getDay(): 0 = Sunday ... 6 = Saturday. Day 0 was a Thursday. */
  function WeekDay(dn: int): (w: int)
    ensures 0 <= w < 7
  {
    (dn + 4) % 7
  }

  /** Stepping back by the weekday always lands on a Sunday. */
  lemma WeekStartIsSunday(dn: int)
    ensures WeekDay(dn - WeekDay(dn)) == 0
  {
  }

  /**
   * ECMAScript's MakeDay(year, monthIndex, date): monthIndex is 0-based and may
   * overflow into following years; date may be 0 or beyond the month.
   */
  function MakeDay(y: int, monthIndex: int, date: int): int
  {
    DaysFromCivil(y + monthIndex / 12, monthIndex % 12 + 1, 1) + date - 1
  }

  /** new Date(y, monthIndex, date, h, mi, s, ms) in local time. */
  function NewDate(y: int, monthIndex: int, date: int, h: int, mi: int, s: int, ms: int): int
  {
    At(MakeDay(y, monthIndex, date), h * MsPerHour + mi * MsPerMinute + s * MsPerSecond + ms)
  }

  /** Day 0 of the following month is the last day of this month, including across December. */
  lemma DayZeroOfNextMonth(y: int, m: int)
    requires 1 <= m <= 12
    ensures MakeDay(y, m, 0) == DaysFromCivil(y, m, DaysInMonth(y, m))
  {
    if m == 12 {
      assert (y + 12 / 12) == y + 1;
      YearStartStep(y);
      MonthsFillYear(y);
    }
  }

  /** Date.prototype.getDate() */
  function GetDate(t: int): int
  {
    CivilFromDays(DayOf(t)).day
  }

  /**
   * Date.prototype.setDate(n): day n counted from the first of the current
   * month (so 0, negative values and values past the month's end move into
   * neighbouring months), time of day kept.
   */
  function SetDate(t: int, n: int): int
  {
    var c := CivilFromDays(DayOf(t));
    At(DaysFromCivil(c.year, c.month, 1) + n - 1, TimeOfDay(t))
  }

  /** setDate(n) moves n - getDate() whole days, whatever month boundary it crosses, and keeps the time. */
  lemma SetDateShift(t: int, n: int)
    ensures DayOf(SetDate(t, n)) == DayOf(t) + n - GetDate(t)
    ensures TimeOfDay(SetDate(t, n)) == TimeOfDay(t)
  {
    var c := CivilFromDays(DayOf(t));
    AtRoundTrip(DaysFromCivil(c.year, c.month, 1) + n - 1, TimeOfDay(t));
  }

  /** setHours(0, 0, 0, 0) is midnight of the instant's day. */
  lemma StartOfDayAt(t: int)
    ensures StartOfDay(t) == At(DayOf(t), 0)
    ensures DayOf(StartOfDay(t)) == DayOf(t)
  {
    AtRoundTrip(DayOf(t), 0);
  }

  /** setHours(23, 59, 59, 999) is the last millisecond of the instant's day. */
  lemma EndOfDayAt(t: int)
    ensures EndOfDay(t) == At(DayOf(t), MsPerDay - 1)
  {
  }
}
