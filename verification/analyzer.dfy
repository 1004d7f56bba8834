/**
 * The scan over the attendance log: skip rows with a blank entry or exit
 * time, parse the date, skip rows outside the optional inclusive date
 * range, parse the two timestamps and apply the permission rule. Any parse
 * failure, and an arrival too close to the end of the `DateTime` range to
 * add eight hours to, aborts the whole run.
 */
module Analyzer {
  import opened Wrappers
  import opened DateTimes
  import opened Whitespace
  import opened Permission

  /** One CSV row: the Gregorian transaction date, the actual entry time and the actual exit time. */
  datatype Row = Row(dateText: string, inText: string, outText: string)

  /** `DateTime.ParseExact` with the formats `dd/MM/yyyy` (date) and `yyyy/MM/dd HH:mm:ss` (stamp). */
  datatype Parsers = Parsers(date: string -> Option<Day>, stamp: string -> Option<Stamp>)

  /** The optional start and end dates the user entered. */
  datatype Filter = Filter(start: Option<Day>, end: Option<Day>)

  datatype Column = DateColumn | InColumn | OutColumn

  /** Why a run aborts: a `FormatException` from a parse, or the
      `ArgumentOutOfRangeException` of adding eight hours to the arrival. */
  datatype Failure = Malformed(column: Column) | OutOfRange

  /** The row is blank in its entry or its exit time, and is skipped unparsed. */
  predicate Skipped(row: Row) {
    IsBlank(row.inText) || IsBlank(row.outText)
  }

  /** The date passes both optional bounds. */
  predicate Admits(f: Filter, date: Day) {
    !(f.start.Some? && date < f.start.value) && !(f.end.Some? && date > f.end.value)
  }

  /** The filter is inclusive at both ends; an absent bound admits every date. */
  lemma AdmitsInclusive(f: Filter, date: Day)
    ensures f.start.Some? && f.end.Some? ==>
              (Admits(f, date) <==> f.start.value <= date <= f.end.value)
    ensures f.start.None? && f.end.None? ==> Admits(f, date)
    ensures f.start.Some? && f.end.Some? && f.start.value <= f.end.value ==>
              Admits(f, f.start.value) && Admits(f, f.end.value)
  {
  }

  /** The loop body for one row. */
  function ProcessRow(row: Row, p: Parsers, f: Filter): (r: Result<seq<Entry>, Failure>)
    ensures Skipped(row) ==> r == Success([])
    ensures r.Failure? <==>
              && !Skipped(row)
              && (|| p.date(row.dateText).None?
                  || (&& Admits(f, p.date(row.dateText).value)
                      && (|| p.stamp(row.inText).None?
                          || p.stamp(row.outText).None?
                          || p.stamp(row.inText).value + 8 * SecondsPerHour > LastSecond)))
    ensures r.Success? ==> |r.value| <= 2 && forall e :: e in r.value ==> WellFormed(e)
    ensures (!Skipped(row) && p.date(row.dateText).Some? && !Admits(f, p.date(row.dateText).value))
              ==> r == Success([])
    ensures (!Skipped(row) && p.date(row.dateText).None?) ==> r == Failure(Malformed(DateColumn))
    ensures (&& !Skipped(row) && p.date(row.dateText).Some? && Admits(f, p.date(row.dateText).value)
             && p.stamp(row.inText).None?)
              ==> r == Failure(Malformed(InColumn))
    ensures (&& !Skipped(row) && p.date(row.dateText).Some? && Admits(f, p.date(row.dateText).value)
             && p.stamp(row.inText).Some? && p.stamp(row.outText).None?)
              ==> r == Failure(Malformed(OutColumn))
    ensures (&& !Skipped(row) && p.date(row.dateText).Some? && Admits(f, p.date(row.dateText).value)
             && p.stamp(row.inText).Some? && p.stamp(row.outText).Some?
             && p.stamp(row.inText).value + 8 * SecondsPerHour > LastSecond)
              ==> r == Failure(OutOfRange)
  {
    if Skipped(row) then Success([])
    else match p.date(row.dateText)
      case None => Failure(Malformed(DateColumn))
      case Some(date) =>
        if !Admits(f, date) then Success([])
        else match p.stamp(row.inText)
          case None => Failure(Malformed(InColumn))
          case Some(inTime) =>
            match p.stamp(row.outText)
            case None => Failure(Malformed(OutColumn))
            case Some(outTime) =>
              match AddHours(inTime, 8)
              case None => Failure(OutOfRange)
              case Some(shiftEnd) => Success(Rule(date, inTime, outTime, shiftEnd))
  }

  /** A row whose fields all parse, that the filter admits, yields the rule's entries. */
  lemma ProcessedRow(row: Row, p: Parsers, f: Filter, date: Day, inTime: Stamp, outTime: Stamp)
    requires !Skipped(row)
    requires p.date(row.dateText) == Some(date) && Admits(f, date)
    requires p.stamp(row.inText) == Some(inTime) && p.stamp(row.outText) == Some(outTime)
    requires inTime + 8 * SecondsPerHour <= LastSecond
    ensures ProcessRow(row, p, f) == Success(Rule(date, inTime, outTime, inTime + 8 * SecondsPerHour))
  {
  }

  /** Runs `first`, then `second`: the first failure wins, otherwise the entries are concatenated. */
  function Then(first: Result<seq<Entry>, Failure>, second: Result<seq<Entry>, Failure>): Result<seq<Entry>, Failure> {
    match first
    case Failure(err) => Failure(err)
    case Success(xs) =>
      match second
      case Failure(err) => Failure(err)
      case Success(ys) => Success(xs + ys)
  }

  lemma ThenAssociative(x: Result<seq<Entry>, Failure>, y: Result<seq<Entry>, Failure>, z: Result<seq<Entry>, Failure>)
    ensures Then(x, Then(y, z)) == Then(Then(x, y), z)
  {
    if x.Success? && y.Success? && z.Success? {
      assert x.value + (y.value + z.value) == (x.value + y.value) + z.value;
    }
  }

  /** Every row's entries in row order, or the first failing row's error. */
  function Extract(rows: seq<Row>, p: Parsers, f: Filter): (r: Result<seq<Entry>, Failure>)
    ensures r.Success? ==> |r.value| <= 2 * |rows|
    decreases |rows|
  {
    if rows == [] then Success([])
    else Then(ProcessRow(rows[0], p, f), Extract(rows[1..], p, f))
  }

  /** Every entry of a successful scan is a non-empty window with its truncated minute count. */
  lemma {:induction false} ExtractWellFormed(rows: seq<Row>, p: Parsers, f: Filter)
    requires Extract(rows, p, f).Success?
    ensures forall e :: e in Extract(rows, p, f).value ==> WellFormed(e)
    decreases |rows|
  {
    if rows != [] {
      ExtractWellFormed(rows[1..], p, f);
    }
  }

  /** The scan fails exactly when some row fails, and then with the error of the first such row. */
  lemma {:induction false} ExtractFailure(rows: seq<Row>, p: Parsers, f: Filter)
    ensures Extract(rows, p, f).Success? <==>
              forall i :: 0 <= i < |rows| ==> ProcessRow(rows[i], p, f).Success?
    ensures Extract(rows, p, f).Failure? ==>
              exists i :: && 0 <= i < |rows|
                          && ProcessRow(rows[i], p, f) == Failure(Extract(rows, p, f).error)
                          && forall j :: 0 <= j < i ==> ProcessRow(rows[j], p, f).Success?
    decreases |rows|
  {
    if rows != [] {
      ExtractFailure(rows[1..], p, f);
      assert forall j :: 1 <= j < |rows| ==> rows[j] == rows[1..][j - 1];
      if ProcessRow(rows[0], p, f).Success? && Extract(rows[1..], p, f).Failure? {
        var k :| && 0 <= k < |rows[1..]|
                 && ProcessRow(rows[1..][k], p, f) == Failure(Extract(rows[1..], p, f).error)
                 && forall j :: 0 <= j < k ==> ProcessRow(rows[1..][j], p, f).Success?;
        assert ProcessRow(rows[k + 1], p, f) == Failure(Extract(rows, p, f).error);
        assert forall j :: 0 <= j < k + 1 ==> ProcessRow(rows[j], p, f).Success?;
      }
    }
  }

  /** The scan of `a + b` is the scan of `a` followed by the scan of `b`, stopping at the first failure. */
  lemma {:induction false} ExtractAppend(a: seq<Row>, b: seq<Row>, p: Parsers, f: Filter)
    ensures Extract(a + b, p, f) == Then(Extract(a, p, f), Extract(b, p, f))
    decreases |a|
  {
    if a == [] {
      assert a + b == b;
      if Extract(b, p, f).Success? {
        assert [] + Extract(b, p, f).value == Extract(b, p, f).value;
      }
    } else {
      var ab := a + b;
      assert ab[0] == a[0];
      assert ab[1..] == a[1..] + b;
      ExtractAppend(a[1..], b, p, f);
      ThenAssociative(ProcessRow(a[0], p, f), Extract(a[1..], p, f), Extract(b, p, f));
    }
  }

  /** An entry is in the result exactly when some row contributed it. */
  lemma {:induction false} ExtractMembership(rows: seq<Row>, p: Parsers, f: Filter, e: Entry)
    requires Extract(rows, p, f).Success?
    ensures e in Extract(rows, p, f).value <==>
              exists i :: 0 <= i < |rows| && ProcessRow(rows[i], p, f).Success? && e in ProcessRow(rows[i], p, f).value
    decreases |rows|
  {
    if rows != [] {
      ExtractMembership(rows[1..], p, f, e);
      assert forall j :: 1 <= j < |rows| ==> rows[j] == rows[1..][j - 1];
      if e in ProcessRow(rows[0], p, f).value {
        assert 0 < |rows| && e in ProcessRow(rows[0], p, f).value;
      }
      if exists i :: 0 <= i < |rows| && ProcessRow(rows[i], p, f).Success? && e in ProcessRow(rows[i], p, f).value {
        var i :| 0 <= i < |rows| && ProcessRow(rows[i], p, f).Success? && e in ProcessRow(rows[i], p, f).value;
        if i > 0 {
          assert e in ProcessRow(rows[1..][i - 1], p, f).value;
        }
      }
    }
  }

  /** A row that contributes nothing without failing, such as a blank or filtered one, can be removed. */
  lemma SkippedRowIsNeutral(a: seq<Row>, row: Row, b: seq<Row>, p: Parsers, f: Filter)
    requires ProcessRow(row, p, f) == Success([])
    ensures Extract(a + [row] + b, p, f) == Extract(a + b, p, f)
  {
    assert Extract([row], p, f) == Success([]) by {
      assert [row][1..] == [];
    }
    ExtractAppend(a, [row], p, f);
    ExtractAppend(a + [row], b, p, f);
    ExtractAppend(a, b, p, f);
    if Extract(a, p, f).Success? {
      assert Extract(a, p, f).value + [] == Extract(a, p, f).value;
    }
  }

  /** Scanning one more row of a successful prefix appends that row's entries, or fails the whole scan. */
  lemma ExtendPrefix(rows: seq<Row>, i: nat, p: Parsers, f: Filter, records: seq<Entry>)
    requires i < |rows| && Extract(rows[..i], p, f) == Success(records)
    ensures ProcessRow(rows[i], p, f).Success? ==>
              Extract(rows[..i + 1], p, f) == Success(records + ProcessRow(rows[i], p, f).value)
    ensures ProcessRow(rows[i], p, f) == Success([]) ==> Extract(rows[..i + 1], p, f) == Success(records)
    ensures ProcessRow(rows[i], p, f).Failure? ==>
              Extract(rows, p, f) == Failure(ProcessRow(rows[i], p, f).error)
  {
    assert rows[..i + 1] == rows[..i] + [rows[i]];
    assert [rows[i]][1..] == [];
    ExtractAppend(rows[..i], [rows[i]], p, f);
    if ProcessRow(rows[i], p, f).Success? {
      assert ProcessRow(rows[i], p, f).value + [] == ProcessRow(rows[i], p, f).value;
      assert records + [] == records;
    } else {
      assert rows[..i + 1] + rows[i + 1..] == rows;
      ExtractAppend(rows[..i + 1], rows[i + 1..], p, f);
    }
  }

  /**
   * The body of the `foreach` loop for one row, step by step: the blank
   * check, the date parse and filter, the two timestamp parses, the exit
   * limit and the two permission checks. An empty success is a `continue`.
   */
  method ScanRow(row: Row, p: Parsers, f: Filter) returns (r: Result<seq<Entry>, Failure>)
    ensures r == ProcessRow(row, p, f)
  {
    var inBlank := IsNullOrWhiteSpace(row.inText);
    var outBlank := IsNullOrWhiteSpace(row.outText);
    if inBlank || outBlank {
      return Success([]);
    }
    if p.date(row.dateText).None? {
      return Failure(Malformed(DateColumn));
    }
    var date := p.date(row.dateText).value;
    if f.start.Some? && date < f.start.value {
      return Success([]);
    }
    if f.end.Some? && date > f.end.value {
      return Success([]);
    }
    if p.stamp(row.inText).None? {
      return Failure(Malformed(InColumn));
    }
    var inTime := p.stamp(row.inText).value;
    if p.stamp(row.outText).None? {
      return Failure(Malformed(OutColumn));
    }
    var outTime := p.stamp(row.outText).value;

    var nineAM := AtHour(date, 9);
    if inTime + 8 * SecondsPerHour > LastSecond {
      return Failure(OutOfRange);
    }
    var exitLimit: Stamp := inTime + 8 * SecondsPerHour;
    var cap17 := AtHour(date, 17);
    if exitLimit > cap17 {
      exitLimit := cap17;
    }
    var added: seq<Entry> := [];
    if inTime > nineAM {
      var mins := (inTime - nineAM) / SecondsPerMinute;
      added := added + [Entry(nineAM, inTime, mins)];
    }
    if outTime < exitLimit {
      var mins := (exitLimit - outTime) / SecondsPerMinute;
      added := added + [Entry(outTime, exitLimit, mins)];
    }
    assert nineAM == NineAM(date) && exitLimit == ExitLimit(date, inTime + 8 * SecondsPerHour);
    assert added == Rule(date, inTime, outTime, inTime + 8 * SecondsPerHour);
    ProcessedRow(row, p, f, date, inTime, outTime);
    return Success(added);
  }

  /**
   * The `foreach` loop itself: append each row's entries to the result
   * list, and let the first exception end the run.
   */
  method ExtractEntries(rows: seq<Row>, p: Parsers, f: Filter) returns (r: Result<seq<Entry>, Failure>)
    ensures r == Extract(rows, p, f)
  {
    var records: seq<Entry> := [];
    var i := 0;
    while i < |rows|
      invariant 0 <= i <= |rows|
      invariant Extract(rows[..i], p, f) == Success(records)
    {
      var entries := ScanRow(rows[i], p, f);
      ExtendPrefix(rows, i, p, f, records);
      if entries.Failure? {
        return entries;
      }
      records := records + entries.value;
      i := i + 1;
    }
    assert rows[..i] == rows;
    return Success(records);
  }
}
