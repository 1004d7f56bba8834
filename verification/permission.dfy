/**
 * The per-record permission rule: a late arrival after 09:00 and an early
 * leave before the exit limit, the earlier of eight hours after arrival and
 * 17:00 of the record's date.
 */
module Permission {
  import opened DateTimes

  /** One permission window: its start, its end and its length in minutes. */
  datatype Entry = Entry(from: Stamp, to: Stamp, minutes: int)

  /** `minutes` is the length `span` (in seconds) truncated to whole minutes. */
  predicate WholeMinutes(span: int, minutes: int) {
    0 <= minutes && minutes * SecondsPerMinute <= span < (minutes + 1) * SecondsPerMinute
  }

  /** A window that is not empty and whose minute count is its truncated length. */
  predicate WellFormed(e: Entry) {
    e.from < e.to && WholeMinutes(e.to - e.from, e.minutes)
  }

  /** The entry for `[from, to]`: `(int)(to - from).TotalMinutes` on a positive span. */
  function Window(from: Stamp, to: Stamp): (e: Entry)
    requires from < to
    ensures WellFormed(e)
    ensures e.from == from && e.to == to
  {
    Entry(from, to, (to - from) / SecondsPerMinute)
  }

  /** 09:00 of the record's date: the latest arrival that is not late. */
  function NineAM(date: Day): Stamp {
    AtHour(date, 9)
  }

  /** 17:00 of the record's date: the latest the exit limit can be. */
  function Cap17(date: Day): Stamp {
    AtHour(date, 17)
  }

  /** The exit limit, given `shiftEnd`, the arrival plus eight hours. */
  function ExitLimit(date: Day, shiftEnd: Stamp): (limit: Stamp)
    ensures limit <= Cap17(date) && limit <= shiftEnd
    ensures limit == Cap17(date) || limit == shiftEnd
  {
    if shiftEnd > Cap17(date) then Cap17(date) else shiftEnd
  }

  /** The late-arrival window `[09:00, inTime]`, when the arrival is late. */
  predicate IsLateWindow(e: Entry, date: Day, inTime: Stamp) {
    e.from == NineAM(date) && e.to == inTime
  }

  /** The early-leave window `[outTime, limit]`. */
  predicate IsEarlyWindow(e: Entry, outTime: Stamp, limit: Stamp) {
    e.from == outTime && e.to == limit
  }

  /**
   * The entries one processed record contributes: the late arrival first,
   * then the early leave. `shiftEnd` is `inTime` plus eight hours.
   */
  function Rule(date: Day, inTime: Stamp, outTime: Stamp, shiftEnd: Stamp): (r: seq<Entry>)
    ensures |r| == (if inTime > NineAM(date) then 1 else 0)
                   + (if outTime < ExitLimit(date, shiftEnd) then 1 else 0)
    ensures forall e :: e in r ==> WellFormed(e)
    ensures inTime > NineAM(date) <==> exists e :: e in r && IsLateWindow(e, date, inTime)
    ensures outTime < ExitLimit(date, shiftEnd)
            <==> exists e :: e in r && IsEarlyWindow(e, outTime, ExitLimit(date, shiftEnd))
    ensures forall e :: e in r ==>
              IsLateWindow(e, date, inTime) || IsEarlyWindow(e, outTime, ExitLimit(date, shiftEnd))
    ensures |r| == 2 ==>
              IsLateWindow(r[0], date, inTime) && IsEarlyWindow(r[1], outTime, ExitLimit(date, shiftEnd))
  {
    var nine := NineAM(date);
    var limit := ExitLimit(date, shiftEnd);
    var late := if inTime > nine then [Window(nine, inTime)] else [];
    var early := if outTime < limit then [Window(outTime, limit)] else [];
    assert inTime > nine ==> late[0] in late + early && IsLateWindow(late[0], date, inTime);
    assert outTime < limit ==> early[0] in late + early && IsEarlyWindow(early[0], outTime, limit);
    late + early
  }

  /** Entries that are late arrivals carry the minutes from 09:00 to the arrival. */
  lemma LateMinutes(date: Day, inTime: Stamp, outTime: Stamp, shiftEnd: Stamp, e: Entry)
    requires e in Rule(date, inTime, outTime, shiftEnd) && IsLateWindow(e, date, inTime)
    ensures e.minutes == (inTime - NineAM(date)) / SecondsPerMinute
  {
    WholeMinutesUnique(e.to - e.from, e.minutes);
  }

  /** Entries that are early leaves carry the minutes from the departure to the exit limit. */
  lemma EarlyMinutes(date: Day, inTime: Stamp, outTime: Stamp, shiftEnd: Stamp, e: Entry)
    requires e in Rule(date, inTime, outTime, shiftEnd)
    requires IsEarlyWindow(e, outTime, ExitLimit(date, shiftEnd))
    ensures e.minutes == (ExitLimit(date, shiftEnd) - outTime) / SecondsPerMinute
  {
    WholeMinutesUnique(e.to - e.from, e.minutes);
  }

  /** Truncation to whole minutes has one answer: integer division by 60. */
  lemma WholeMinutesUnique(span: int, minutes: int)
    requires WholeMinutes(span, minutes)
    ensures minutes == span / SecondsPerMinute
  {
  }

  /** An arrival no later than 09:00 and a departure no earlier than the exit limit yield nothing. */
  lemma OnTimeYieldsNothing(date: Day, inTime: Stamp, outTime: Stamp, shiftEnd: Stamp)
    requires inTime <= NineAM(date) && outTime >= ExitLimit(date, shiftEnd)
    ensures Rule(date, inTime, outTime, shiftEnd) == []
  {
  }
}
