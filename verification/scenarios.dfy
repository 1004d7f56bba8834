/** Worked examples of the rule and the scan, for any record date. */
module Scenarios {
  import opened Wrappers
  import opened DateTimes
  import opened Permission
  import opened Analyzer

  /** The stamp `h:m:sec` on the record's date. */
  function Clock(date: Day, h: int, m: int, sec: int): Stamp
    requires 0 <= h < 24 && 0 <= m < 60 && 0 <= sec < 60
  {
    AtHour(date, h) + m * SecondsPerMinute + sec
  }

  /** In at 09:15, out at 17:00: one late arrival of 15 minutes. */
  lemma LateArrivalOnly(date: Day)
    ensures Rule(date, Clock(date, 9, 15, 0), Clock(date, 17, 0, 0), Clock(date, 17, 15, 0))
            == [Entry(Clock(date, 9, 0, 0), Clock(date, 9, 15, 0), 15)]
  {
  }

  /** In at 08:00, out at 15:30: the exit limit is 16:00, one early leave of 30 minutes. */
  lemma EarlyLeaveOnly(date: Day)
    ensures Rule(date, Clock(date, 8, 0, 0), Clock(date, 15, 30, 0), Clock(date, 16, 0, 0))
            == [Entry(Clock(date, 15, 30, 0), Clock(date, 16, 0, 0), 30)]
  {
  }

  /**
   * A row dated `date`, in at 10:00, out at 17:30: eight hours after arrival
   * is 18:00, the exit limit is capped at 17:00, so only the late hour counts.
   */
  lemma CappedExitLimit(row: Row, p: Parsers, f: Filter, date: Day)
    requires !Skipped(row) && p.date(row.dateText) == Some(date) && Admits(f, date)
    requires p.stamp(row.inText) == Some(Clock(date, 10, 0, 0))
    requires p.stamp(row.outText) == Some(Clock(date, 17, 30, 0))
    ensures ProcessRow(row, p, f) == Success([Entry(Clock(date, 9, 0, 0), Clock(date, 10, 0, 0), 60)])
  {
    ProcessedRow(row, p, f, date, Clock(date, 10, 0, 0), Clock(date, 17, 30, 0));
    var shiftEnd := Clock(date, 10, 0, 0) + 8 * SecondsPerHour;
    assert shiftEnd == Clock(date, 18, 0, 0);
    assert ExitLimit(date, shiftEnd) == Clock(date, 17, 0, 0);
    assert Rule(date, Clock(date, 10, 0, 0), Clock(date, 17, 30, 0), shiftEnd)
           == [Window(Clock(date, 9, 0, 0), Clock(date, 10, 0, 0))];
  }

  /** Arriving 30 seconds late yields an entry of zero minutes. */
  lemma ZeroMinuteEntry(date: Day)
    ensures Rule(date, Clock(date, 9, 0, 30), Clock(date, 17, 0, 30), Clock(date, 17, 0, 30))
            == [Entry(Clock(date, 9, 0, 0), Clock(date, 9, 0, 30), 0)]
  {
  }

  /** A blank exit time skips the row whatever the other cells hold. */
  lemma BlankExitSkipped(dateText: string, inText: string, p: Parsers, f: Filter)
    ensures ProcessRow(Row(dateText, inText, ""), p, f) == Success([])
  {
  }

  /** A row dated the day before the start date is skipped, whatever its timestamps. */
  lemma DayBeforeStartExcluded(row: Row, p: Parsers, start: Day, end: Day)
    requires !Skipped(row) && 0 < start && p.date(row.dateText) == Some(start - 1)
    ensures ProcessRow(row, p, Filter(Some(start), Some(end))) == Success([])
  {
  }

  /** In at 17:00, out at 09:00: both windows are 09:00-17:00, and both are emitted. */
  lemma BothWindowsCoincide(date: Day, shiftEnd: Stamp)
    requires shiftEnd >= Clock(date, 17, 0, 0)
    ensures Rule(date, Clock(date, 17, 0, 0), Clock(date, 9, 0, 0), shiftEnd)
            == [Entry(Clock(date, 9, 0, 0), Clock(date, 17, 0, 0), 480),
                Entry(Clock(date, 9, 0, 0), Clock(date, 17, 0, 0), 480)]
  {
  }
}
