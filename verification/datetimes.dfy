/**
 * The part of .NET `DateTime` the analyzer relies on, at one-second
 * resolution: a calendar date is a day number and a timestamp is a count of
 * seconds, both counted from 0001-01-01 00:00:00, the `DateTime` epoch.
 */
module DateTimes {
  import opened Wrappers

  const SecondsPerMinute: int := 60
  const SecondsPerHour: int := 3600
  const SecondsPerDay: int := 86400

  /** Day number of 9999-12-31, the last date `DateTime` can represent. */
  const LastDay: int := 3652058
  /** 9999-12-31 23:59:59, the last whole second `DateTime` can represent. */
  const LastSecond: int := (LastDay + 1) * SecondsPerDay - 1

  /** A parsed `dd/MM/yyyy` value: midnight of a calendar date. */
  type Day = d: int | 0 <= d <= LastDay

  /** A parsed `yyyy/MM/dd HH:mm:ss` value: a whole second. */
  type Stamp = s: int | 0 <= s <= LastSecond

  /** `date.AddHours(h)` for an hour of that same day; never leaves the range. */
  function AtHour(date: Day, h: int): (s: Stamp)
    requires 0 <= h < 24
    ensures s / SecondsPerDay == date
    ensures s % SecondsPerDay == h * SecondsPerHour
  {
    date * SecondsPerDay + h * SecondsPerHour
  }

  /**
   * `t.AddHours(hours)`: `DateTime` throws `ArgumentOutOfRangeException`
   * when the sum passes its last representable instant; that is `None`.
   */
  function AddHours(t: Stamp, hours: nat): (r: Option<Stamp>)
    ensures r.Some? <==> t + hours * SecondsPerHour <= LastSecond
    ensures r.Some? ==> r.value - t == hours * SecondsPerHour
  {
    if t + hours * SecondsPerHour <= LastSecond then Some(t + hours * SecondsPerHour) else None
  }

  /** `DateTime.Hour`. */
  function HourOf(t: Stamp): (h: int)
    ensures 0 <= h < 24
  {
    (t % SecondsPerDay) / SecondsPerHour
  }

  /** `DateTime.Minute`. */
  function MinuteOf(t: Stamp): (m: int)
    ensures 0 <= m < 60
  {
    (t % SecondsPerHour) / SecondsPerMinute
  }

  /**
   * Hour and minute are the time of day to the minute: a stamp is its day's
   * midnight plus that many hours and minutes plus under a minute of seconds.
   */
  lemma TimeOfDay(t: Stamp)
    ensures t == (t / SecondsPerDay) * SecondsPerDay + HourOf(t) * SecondsPerHour
                 + MinuteOf(t) * SecondsPerMinute + t % SecondsPerMinute
  {
    var r := t % SecondsPerDay;
    assert t == (t / SecondsPerDay) * SecondsPerDay + r;
    assert r == (r / SecondsPerHour) * SecondsPerHour + r % SecondsPerHour;
    assert r % SecondsPerHour == t % SecondsPerHour;
    var q := t % SecondsPerHour;
    assert q == (q / SecondsPerMinute) * SecondsPerMinute + q % SecondsPerMinute;
    assert q % SecondsPerMinute == t % SecondsPerMinute;
  }
}
