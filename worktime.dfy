/**
 * Work duration between a check-in and a check-out instant
 * (calculateWorkHours in index.js).
 *
 * The source divides the millisecond difference by 3 600 000 as a
 * floating-point number, takes Math.floor of it for the hours and
 * Math.floor((hours % 1) * 60) for the minutes. Over integer milliseconds
 * this is: hours = floor(delta / 1h), and minutes = floor(rem / 1min), where
 * rem is JavaScript's remainder of delta by one hour, which takes the sign
 * of delta.
 */
module WorkTime {
  import opened Calendar

  datatype WorkTime = WorkTime(hours: int, minutes: int)

  /**
   * JavaScript's `delta % 3600000`: the remainder of a whole hour, with the
   * sign of delta (the integer form of `hours % 1`).
   */
  function HourRemainder(delta: int): (r: int)
    ensures delta >= 0 ==> 0 <= r < MsPerHour
    ensures delta < 0 ==> -MsPerHour < r <= 0
  {
    if delta >= 0 then delta % MsPerHour else -((-delta) % MsPerHour)
  }

  /** The remainder is what is left after the whole hours, counted toward zero. */
  lemma HourRemainderSplits(delta: int)
    ensures delta >= 0 ==> HourRemainder(delta) == delta - (delta / MsPerHour) * MsPerHour
    ensures delta < 0 ==> HourRemainder(delta) == delta + ((-delta) / MsPerHour) * MsPerHour
  {
  }

  function CalculateWorkHours(start: int, end: int): WorkTime
  {
    var delta := end - start;
    WorkTime(delta / MsPerHour, HourRemainder(delta) / MsPerMinute)
  }

  /**
   * For a non-negative duration the result is the usual hours-and-minutes
   * reading: minutes lie in 0..59, and the whole hours plus whole minutes are
   * the largest such amount not exceeding the duration.
   */
  lemma WorkHoursOfNonNegative(start: int, end: int)
    requires start <= end
    ensures var w := CalculateWorkHours(start, end);
      && w.hours >= 0
      && 0 <= w.minutes < 60
      && w.hours * MsPerHour + w.minutes * MsPerMinute <= end - start
      && end - start < w.hours * MsPerHour + (w.minutes + 1) * MsPerMinute
  {
    HourRemainderSplits(end - start);
  }

  /** The reading above pins the result down: any hours/minutes pair meeting it is the result. */
  lemma WorkHoursUnique(start: int, end: int, h: int, m: int)
    requires h >= 0 && 0 <= m < 60
    requires h * MsPerHour + m * MsPerMinute <= end - start < h * MsPerHour + (m + 1) * MsPerMinute
    ensures CalculateWorkHours(start, end) == WorkTime(h, m)
  {
    var delta := end - start;
    assert 0 <= delta - h * MsPerHour < MsPerHour;
    assert delta / MsPerHour == h;
    HourRemainderSplits(delta);
    assert HourRemainder(delta) == delta - h * MsPerHour;
  }

  /** 09:00 to 18:30 is 9 hours 30 minutes. */
  lemma NineToHalfPastSix(day: int)
    ensures CalculateWorkHours(At(day, 9 * MsPerHour), At(day, 18 * MsPerHour + 30 * MsPerMinute))
         == WorkTime(9, 30)
  {
    WorkHoursUnique(At(day, 9 * MsPerHour), At(day, 18 * MsPerHour + 30 * MsPerMinute), 9, 30);
  }

  /**
   * The source does not clamp a negative duration (a check-out instant
   * before the check-in instant): hours round down and the minutes come out
   * in -60..0, both negative, so the two do not add up to a display of the
   * elapsed time.
   */
  lemma WorkHoursOfNegative(start: int, end: int)
    requires end < start
    ensures var w := CalculateWorkHours(start, end);
      && w.hours < 0
      && -60 <= w.minutes <= 0
  {
  }
}
