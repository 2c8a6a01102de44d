/** The broken-down time the get_time functions hand back and the struct tm
    that get_gps_time_utc fills from it before calling timegm. */
module TimeFields {
  import opened Reports

  /** year, month, day, hour, minute and second, as get_time returns them
      through its reference parameters. */
  datatype Clock = Clock(year: int, month: int, day: int, hour: int, minute: int, second: int)

  /** The struct tm fields that are set before the conversion. */
  datatype Tm = Tm(year: int, mon: int, mday: int, hour: int, min: int, sec: int)

  /** The tm_year and tm_mon adjustments: years since 1900, months from 0. */
  function TmOf(c: Clock): (tm: Tm)
    ensures tm.year + 1900 == c.year && tm.mon + 1 == c.month
    ensures tm.mday == c.day && tm.hour == c.hour && tm.min == c.minute && tm.sec == c.second
  {
    Tm(c.year - 1900, c.month - 1, c.day, c.hour, c.minute, c.second)
  }

  /** The date and time carried by a primary timing report. */
  function ClockOfReport(t: PrimaryTimeReport): Clock {
    Clock(t.year, t.month, t.day, t.hours, t.minutes, t.seconds)
  }
}
