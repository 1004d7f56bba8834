/**
 * The time-of-day part of the analyzer's timestamp label: a 12-hour clock
 * hour and minute, each padded to two digits, and an Arabic period marker,
 * U+0635 (sad) before noon and U+0645 (meem) from noon on.
 */
module ClockFormat {
  import opened Wrappers
  import opened DateTimes

  const Morning: char := '\U{0635}'
  const Evening: char := '\U{0645}'

  /** The hour on a 12-hour clock: midnight and noon read as 12. */
  function Hour12(hour: int): (h12: int)
    requires 0 <= hour < 24
    ensures 1 <= h12 <= 12
    ensures h12 % 12 == hour % 12
  {
    if hour % 12 == 0 then 12 else hour % 12
  }

  /** The period marker for an hour of the day. */
  function Period(hour: int): (c: char)
    requires 0 <= hour < 24
    ensures c == Morning <==> hour < 12
    ensures c == Evening <==> hour >= 12
  {
    if hour < 12 then Morning else Evening
  }

  /** Reads a 12-hour clock hour and a period marker back as an hour of the day. */
  function Hour24(h12: int, period: char): (hour: int)
    requires 1 <= h12 <= 12
  {
    if period == Morning then h12 % 12 else h12 % 12 + 12
  }

  /** The 12-hour clock hour and its marker determine the hour of the day. */
  lemma HourRoundTrip(hour: int)
    requires 0 <= hour < 24
    ensures Hour24(Hour12(hour), Period(hour)) == hour
  {
  }

  /** Every 12-hour clock reading with a marker names exactly one hour of the day. */
  lemma ClockRoundTrip(h12: int, period: char)
    requires 1 <= h12 <= 12 && (period == Morning || period == Evening)
    ensures 0 <= Hour24(h12, period) < 24
    ensures Hour12(Hour24(h12, period)) == h12 && Period(Hour24(h12, period)) == period
  {
  }

  /** The `00` numeric format: two decimal digits, with a leading zero. */
  function TwoDigits(n: int): (s: string)
    requires 0 <= n < 100
    ensures |s| == 2 && '0' <= s[0] <= '9' && '0' <= s[1] <= '9'
  {
    [('0' as int + n / 10) as char, ('0' as int + n % 10) as char]
  }

  /** Reads two decimal digits. */
  function ReadTwoDigits(s: string): (r: Option<int>)
  {
    if |s| == 2 && '0' <= s[0] <= '9' && '0' <= s[1] <= '9'
    then Some((s[0] as int - '0' as int) * 10 + (s[1] as int - '0' as int))
    else None
  }

  lemma TwoDigitsRoundTrip(n: int)
    requires 0 <= n < 100
    ensures ReadTwoDigits(TwoDigits(n)) == Some(n)
  {
  }

  /** The label's `hh:mm p` fragment for a timestamp. */
  function ClockText(t: Stamp): (s: string)
    ensures |s| == 7
  {
    var hour := HourOf(t);
    TwoDigits(Hour12(hour)) + ":" + TwoDigits(MinuteOf(t)) + " " + [Period(hour)]
  }

  /** Reads an `hh:mm p` fragment as the hour of the day and the minute. */
  function ReadClockText(s: string): (r: Option<(int, int)>)
  {
    if |s| != 7 || s[2] != ':' || s[5] != ' ' || !(s[6] == Morning || s[6] == Evening) then None
    else match (ReadTwoDigits(s[..2]), ReadTwoDigits(s[3..5]))
      case (Some(h12), Some(minute)) =>
        if 1 <= h12 <= 12 && minute < 60 then Some((Hour24(h12, s[6]), minute)) else None
      case _ => None
  }

  /** The fragment loses nothing: it gives back the 24-hour hour and the minute of the stamp. */
  lemma ClockTextRoundTrip(t: Stamp)
    ensures ReadClockText(ClockText(t)) == Some((HourOf(t), MinuteOf(t)))
  {
    var hour := HourOf(t);
    var s := ClockText(t);
    assert s[..2] == TwoDigits(Hour12(hour));
    assert s[3..5] == TwoDigits(MinuteOf(t));
    TwoDigitsRoundTrip(Hour12(hour));
    TwoDigitsRoundTrip(MinuteOf(t));
    HourRoundTrip(hour);
  }
}
