/**
 * The date option of the '기록' (report) and '삭제' (delete) commands and the
 * inclusive [start, end] instant windows it resolves to.
 */
module Ranges {
  import opened Options
  import opened Calendar

  /** The three keywords the report command recognises. */
  const Today: string := "오늘"
  const ThisWeek: string := "이번주"
  const ThisMonth: string := "이번달"

  /** What the reply is labelled with. */
  datatype Period = PeriodToday | PeriodThisWeek | PeriodThisMonth | PeriodDay(day: int)

  /** Either an inclusive window of instants, or "not a valid date". */
  datatype Resolution = Resolved(period: Period, start: int, end: int) | InvalidDate

  /** `interaction.options.getString('날짜') || '오늘'`: a missing or empty option means today. */
  function ReportOption(option: Option<string>): string
  {
    if option.None? || option.value == "" then Today else option.value
  }

  /**
   * '이번주': startDate = copy of now; setDate(getDate() - getDay());
   * setHours(0, 0, 0, 0); endDate = copy of startDate;
   * setDate(getDate() + 6); setHours(23, 59, 59, 999).
   */
  function WeekRange(now: int): (int, int)
  {
    var startDate := StartOfDay(SetDate(now, GetDate(now) - WeekDay(DayOf(now))));
    var endDate := EndOfDay(SetDate(startDate, GetDate(startDate) + 6));
    (startDate, endDate)
  }

  /**
   * '이번달': new Date(year, month, 1) and
   * new Date(year, month + 1, 0, 23, 59, 59, 999), month 0-based.
   */
  function MonthRange(now: int): (int, int)
  {
    var c := CivilFromDays(DayOf(now));
    (NewDate(c.year, c.month - 1, 1, 0, 0, 0, 0), NewDate(c.year, c.month, 0, 23, 59, 59, 999))
  }

  /** A parsed date: from its local midnight to the last millisecond of its local day. */
  function DayRange(t: int): Resolution
  {
    Resolved(PeriodDay(DayOf(t)), StartOfDay(t), EndOfDay(t))
  }

  /**
   * The report window. `parse` stands for `new Date(string)` followed by the
   * isNaN test: None when the string is not a date, otherwise its instant.
   */
  function ResolveReportRange(option: Option<string>, now: int, parse: string -> Option<int>): Resolution
  {
    var opt := ReportOption(option);
    if opt == Today then Resolved(PeriodToday, StartOfDay(now), EndOfDay(now))
    else if opt == ThisWeek then Resolved(PeriodThisWeek, WeekRange(now).0, WeekRange(now).1)
    else if opt == ThisMonth then Resolved(PeriodThisMonth, MonthRange(now).0, MonthRange(now).1)
    else
      match parse(opt)
      case None => InvalidDate
      case Some(t) => DayRange(t)
  }

  /** The delete window: the option is required and is always parsed as a date. */
  function ResolveDeleteRange(option: string, parse: string -> Option<int>): Resolution
  {
    match parse(option)
    case None => InvalidDate
    case Some(t) => DayRange(t)
  }

  /** A parsed date's window holds exactly the instants of that local day. */
  lemma DayRangeExact(t: int, u: int)
    ensures var r := DayRange(t);
      r.start <= u <= r.end <==> DayOf(u) == DayOf(t)
  {
    DayWindow(t, u);
  }

  /** A missing or empty option reports today, and today is exactly the current local day. */
  lemma TodayIsDefault(option: Option<string>, now: int, parse: string -> Option<int>, u: int)
    requires option.None? || option == Some("") || option == Some(Today)
    ensures var r := ResolveReportRange(option, now, parse);
      && r.Resolved? && r.period == PeriodToday
      && (r.start <= u <= r.end <==> DayOf(u) == DayOf(now))
  {
    DayWindow(now, u);
  }

  /**
   * This week: seven whole local days, starting at midnight of the Sunday on
   * or before today (possibly in the previous month), ending at the last
   * millisecond of the following Saturday.
   */
  lemma WeekRangeSpec(now: int, u: int)
    ensures var w := DayOf(now) - WeekDay(DayOf(now));
      && WeekDay(w) == 0
      && w <= DayOf(now) <= w + 6
      && WeekRange(now) == (At(w, 0), At(w + 6, MsPerDay - 1))
      && (WeekRange(now).0 <= u <= WeekRange(now).1 <==> w <= DayOf(u) <= w + 6)
  {
    var w := DayOf(now) - WeekDay(DayOf(now));
    WeekRangeShape(now);
    WeekStartIsSunday(DayOf(now));
    DaysWindow(w, w + 6, u);
  }

  /** The week's window, as whole days counted from the Sunday on or before today. */
  lemma WeekRangeShape(now: int)
    ensures var w := DayOf(now) - WeekDay(DayOf(now));
      && DayOf(WeekRange(now).0) == w
      && WeekRange(now) == (At(w, 0), At(w + 6, MsPerDay - 1))
  {
    var w := DayOf(now) - WeekDay(DayOf(now));
    WeekStart(now);
    var s := WeekRange(now).0;
    AtRoundTrip(w, 0);
    WeekEnd(s);
  }

  /** The first instant of the week: midnight of the day getDay() days back. */
  lemma WeekStart(now: int)
    ensures StartOfDay(SetDate(now, GetDate(now) - WeekDay(DayOf(now)))) == At(DayOf(now) - WeekDay(DayOf(now)), 0)
  {
    var back := SetDate(now, GetDate(now) - WeekDay(DayOf(now)));
    SetDateShift(now, GetDate(now) - WeekDay(DayOf(now)));
    StartOfDayAt(back);
  }

  /** The last instant of the week: the final millisecond six days after its start. */
  lemma WeekEnd(s: int)
    ensures EndOfDay(SetDate(s, GetDate(s) + 6)) == At(DayOf(s) + 6, MsPerDay - 1)
  {
    SetDateShift(s, GetDate(s) + 6);
    EndOfDayAt(SetDate(s, GetDate(s) + 6));
  }

  /**
   * This month: from midnight of the first to the last millisecond of the
   * month's last day, so exactly the instants in the same year and month as now.
   */
  lemma MonthRangeSpec(now: int, u: int)
    ensures var (s, e) := MonthRange(now);
      var c := CivilFromDays(DayOf(now));
      && s == At(DaysFromCivil(c.year, c.month, 1), 0)
      && e == At(DaysFromCivil(c.year, c.month, DaysInMonth(c.year, c.month)), MsPerDay - 1)
      && (s <= u <= e <==> CivilFromDays(DayOf(u)).year == c.year && CivilFromDays(DayOf(u)).month == c.month)
  {
    var c := CivilFromDays(DayOf(now));
    var (y, m) := (c.year, c.month);
    var first := DaysFromCivil(y, m, 1);
    var last := DaysFromCivil(y, m, DaysInMonth(y, m));
    MonthBounds(y, m);
    var (s, e) := MonthRange(now);
    assert s == At(first, 0) && e == At(last, MsPerDay - 1);
    DaysWindow(first, last, u);
    InMonthIff(y, m, DayOf(u));
    assert s <= u <= e <==> first <= DayOf(u) <= last;
  }

  /** new Date(y, m - 1, 1) is midnight of the first; new Date(y, m, 0, 23, 59, 59, 999) the month's last millisecond. */
  lemma MonthBounds(y: int, m: int)
    requires 1 <= m <= 12
    ensures NewDate(y, m - 1, 1, 0, 0, 0, 0) == At(DaysFromCivil(y, m, 1), 0)
    ensures NewDate(y, m, 0, 23, 59, 59, 999) == At(DaysFromCivil(y, m, DaysInMonth(y, m)), MsPerDay - 1)
  {
    assert (m - 1) / 12 == 0 && (m - 1) % 12 == m - 1;
    DayZeroOfNextMonth(y, m);
  }

  /** The days from the first to the last of a month are exactly the days whose civil month it is. */
  lemma InMonthIff(y: int, m: int, dn: int)
    requires 1 <= m <= 12
    ensures DaysFromCivil(y, m, 1) <= dn <= DaysFromCivil(y, m, DaysInMonth(y, m))
        <==> CivilFromDays(dn).year == y && CivilFromDays(dn).month == m
  {
    var first := DaysFromCivil(y, m, 1);
    if first <= dn <= DaysFromCivil(y, m, DaysInMonth(y, m)) {
      var dt := Date(y, m, dn - first + 1);
      assert DaysFromCivil(y, m, dn - first + 1) == dn;
      CivilRoundTrip(dt);
    }
  }

  /** A report option is refused exactly when it is no keyword and does not parse as a date. */
  lemma ReportInvalidIff(option: Option<string>, now: int, parse: string -> Option<int>)
    ensures var opt := ReportOption(option);
      (ResolveReportRange(option, now, parse).InvalidDate?
       <==> opt != Today && opt != ThisWeek && opt != ThisMonth && parse(opt).None?)
  {
  }

  /**
   * With 2024-06-12 (a Wednesday) as today, this week runs from 2024-06-09
   * 00:00:00.000 to 2024-06-15 23:59:59.999.
   */
  lemma WeekOfJuneTwelfth2024(now: int)
    requires DayOf(now) == DaysFromCivil(2024, 6, 12)
    ensures WeekRange(now) == (At(DaysFromCivil(2024, 6, 9), 0), At(DaysFromCivil(2024, 6, 15), MsPerDay - 1))
  {
    JuneDays2024(12);
    JuneDays2024(9);
    JuneDays2024(15);
    JuneTwelfth2024IsWednesday();
    WeekOfWednesday(now);
  }

  /** Day 19886 after 1970-01-01 (a Thursday) is a Wednesday. */
  lemma JuneTwelfth2024IsWednesday()
    ensures WeekDay(19886) == 3
  {
    assert 19886 + 4 == 7 * 2841 + 3;
  }

  /** On a Wednesday, this week runs from three days back to three days ahead. */
  lemma WeekOfWednesday(now: int)
    requires WeekDay(DayOf(now)) == 3
    ensures WeekRange(now) == (At(DayOf(now) - 3, 0), At(DayOf(now) + 3, MsPerDay - 1))
  {
    WeekRangeShape(now);
  }

  /**
   * With 2024-06-12 as today, this month runs from 2024-06-01 00:00:00.000
   * to 2024-06-30 23:59:59.999.
   */
  lemma MonthOfJuneTwelfth2024(now: int)
    requires DayOf(now) == DaysFromCivil(2024, 6, 12)
    ensures MonthRange(now) == (At(DaysFromCivil(2024, 6, 1), 0), At(DaysFromCivil(2024, 6, 30), MsPerDay - 1))
  {
    JuneTwelfth2024(now);
    MonthBounds(2024, 6);
  }

  lemma JuneTwelfth2024(now: int)
    requires DayOf(now) == DaysFromCivil(2024, 6, 12)
    ensures CivilFromDays(DayOf(now)) == Date(2024, 6, 12)
  {
    CivilRoundTrip(Date(2024, 6, 12));
  }

  /** June 2024 starts on day 19875 after 1970-01-01 (so 2024-06-12 is day 19886). */
  lemma JuneDays2024(d: int)
    ensures DaysFromCivil(2024, 6, d) == 19874 + d
  {
    YearStart2024();
    assert DaysBeforeMonth(2024, 6) == 152;
  }

  lemma YearStart2024()
    ensures YearStart(2024) == 19723
  {
    YearStartClosedForm(2024);
    assert LeapsThrough(2023) == 490;
    assert LeapsThrough(1969) == 477;
  }
}
