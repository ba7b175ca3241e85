/**
 * `load_data`: the viewing-activity table with its four derived columns. The rows
 * arrive with `Start Time` already parsed into a timestamp.
 */
module Loader {
  import opened Outcomes
  import opened Duration
  import opened Text
  import opened Calendar

  /** One row of the export: the columns the analysis reads, and the rest untouched. */
  datatype ViewingRow = ViewingRow(
    profileName: string,
    startTime: DateTime,
    duration: string,
    otherColumns: seq<string>)

  /** A row with the columns `Duration (s)`, `Month-Year`, `Week` and `Weekday` added. */
  datatype Record = Record(
    row: ViewingRow,
    seconds: int,
    monthYear: string,
    week: string,
    weekday: string)

  /** The duration error that aborts the load, and the first row that raised it. */
  datatype LoadError = LoadError(row: nat, cause: DurationError)

  /** The period columns of a row, next to its already converted seconds. */
  function Derive(row: ViewingRow, seconds: int): Record
    requires IsTimestamp(row.startTime)
  {
    Record(row, seconds, MonthPeriod(row.startTime), WeekPeriod(row.startTime), WeekdayName(row.startTime))
  }

  /** Every `Start Time` of the export has been parsed into a timestamp. */
  predicate Parsed(rows: seq<ViewingRow>) {
    forall i :: 0 <= i < |rows| ==> IsTimestamp(rows[i].startTime)
  }

  /** A record whose period columns are those of its own `Start Time`, as `load_data` adds them. */
  predicate Derived(r: Record) {
    && IsTimestamp(r.row.startTime)
    && r.monthYear == MonthPeriod(r.row.startTime)
    && r.week == WeekPeriod(r.row.startTime)
    && r.weekday == WeekdayName(r.row.startTime)
  }

  /**
   * The three column assignments `Month-Year`, `Week` and `Weekday`, each computed for
   * the whole column at once from `Start Time`, next to the converted seconds.
   */
  function WithPeriods(rows: seq<ViewingRow>, seconds: seq<int>): (t: seq<Record>)
    requires |seconds| == |rows| && Parsed(rows)
    ensures |t| == |rows|
    ensures forall i :: 0 <= i < |rows| ==> t[i].row == rows[i] && t[i].seconds == seconds[i]
    ensures forall i :: 0 <= i < |rows| ==>
      && t[i].monthYear == MonthPeriod(rows[i].startTime)
      && t[i].week == WeekPeriod(rows[i].startTime)
      && t[i].weekday == WeekdayName(rows[i].startTime)
  {
    seq(|rows|, i requires 0 <= i < |rows| => Derive(rows[i], seconds[i]))
  }

  /**
   * `df['Duration'].apply(convert)`: the durations converted in row order; the first
   * one that raises aborts the load with that row's error. `load_data` applies
   * `duration_to_seconds`; the facts below hold for any conversion.
   */
  function Converted(rows: seq<ViewingRow>, convert: string -> Result<int, DurationError>): Result<seq<int>, LoadError>
    decreases |rows|
  {
    if |rows| == 0 then Success([])
    else
      var n := |rows| - 1;
      var done := Converted(rows[..n], convert);
      if done.Failure? then done
      else match convert(rows[n].duration)
        case Failure(e) => Failure(LoadError(n, e))
        case Success(v) => Success(done.value + [v])
  }

  /** A converted column holds, row by row, the seconds of each duration. */
  lemma {:induction false} ConvertedValues(rows: seq<ViewingRow>, convert: string -> Result<int, DurationError>)
    requires Converted(rows, convert).Success?
    ensures |Converted(rows, convert).value| == |rows|
    ensures forall i :: 0 <= i < |rows| ==> convert(rows[i].duration) == Success(Converted(rows, convert).value[i])
    decreases |rows|
  {
    if |rows| > 0 {
      var n := |rows| - 1;
      var init := rows[..n];
      ConvertedLast(rows, convert);
      var done := Converted(init, convert);
      var values := Converted(rows, convert).value;
      ConvertedValues(init, convert);
      forall i | 0 <= i < |rows| ensures convert(rows[i].duration) == Success(values[i]) {
        if i < n {
          assert init[i] == rows[i] && values[i] == done.value[i];
        }
      }
    }
  }

  /** A converted column is the converted column before the last row, then the last row's seconds. */
  lemma ConvertedLast(rows: seq<ViewingRow>, convert: string -> Result<int, DurationError>)
    requires |rows| > 0 && Converted(rows, convert).Success?
    ensures Converted(rows[..|rows| - 1], convert).Success?
    ensures convert(rows[|rows| - 1].duration).Success?
    ensures Converted(rows, convert).value == Converted(rows[..|rows| - 1], convert).value + [convert(rows[|rows| - 1].duration).value]
  {
  }

  /** The column converts exactly when every duration does. */
  lemma {:induction false} ConvertedSuccess(rows: seq<ViewingRow>, convert: string -> Result<int, DurationError>)
    ensures Converted(rows, convert).Success? <==> forall i :: 0 <= i < |rows| ==> convert(rows[i].duration).Success?
    decreases |rows|
  {
    if Converted(rows, convert).Success? {
      ConvertedValues(rows, convert);
    } else if |rows| > 0 {
      var n := |rows| - 1;
      var init := rows[..n];
      ConvertedSuccess(init, convert);
      if Converted(init, convert).Failure? {
        var i :| 0 <= i < n && !convert(init[i].duration).Success?;
        assert init[i] == rows[i];
      } else {
        assert !convert(rows[n].duration).Success?;
      }
    }
  }

  /** A failed conversion names the first row whose duration raises, and what it raised. */
  lemma {:induction false} ConvertedFailure(rows: seq<ViewingRow>, convert: string -> Result<int, DurationError>)
    requires Converted(rows, convert).Failure?
    ensures var e := Converted(rows, convert).error;
      && e.row < |rows|
      && convert(rows[e.row].duration) == Failure(e.cause)
      && forall i :: 0 <= i < e.row ==> convert(rows[i].duration).Success?
    decreases |rows|
  {
    var n := |rows| - 1;
    var init := rows[..n];
    assert forall i :: 0 <= i < n ==> init[i] == rows[i];
    if Converted(init, convert).Failure? {
      ConvertedFailure(init, convert);
    } else {
      ConvertedSuccess(init, convert);
    }
  }

  /** Once a prefix has failed, the rest of the column is never converted. */
  lemma {:induction false} ConvertedAborts(rows: seq<ViewingRow>, convert: string -> Result<int, DurationError>, i: nat)
    requires i < |rows| && Converted(rows[..i + 1], convert).Failure?
    ensures Converted(rows, convert) == Converted(rows[..i + 1], convert)
    decreases |rows|
  {
    if i + 1 < |rows| {
      var init := rows[..|rows| - 1];
      assert init[..i + 1] == rows[..i + 1];
      ConvertedAborts(init, convert, i);
      ConvertedStops(rows, convert);
    } else {
      assert rows[..i + 1] == rows;
    }
  }

  /** A failure before the last row is the failure of the whole column. */
  lemma ConvertedStops(rows: seq<ViewingRow>, convert: string -> Result<int, DurationError>)
    requires |rows| > 0 && Converted(rows[..|rows| - 1], convert).Failure?
    ensures Converted(rows, convert) == Converted(rows[..|rows| - 1], convert)
  {
  }

  /**
   * Converts the `Duration` column to seconds, then adds the three period columns.
   * One bad duration aborts the whole load with no table at all; otherwise every
   * input row gives exactly one record, in order, its own columns unchanged.
   */
  method LoadData(rows: seq<ViewingRow>) returns (result: Result<seq<Record>, LoadError>)
    requires Parsed(rows)
    ensures result.Success? <==> forall i :: 0 <= i < |rows| ==> DurationToSeconds(rows[i].duration).Success?
    ensures result.Failure? ==>
      && result.error.row < |rows|
      && DurationToSeconds(rows[result.error.row].duration) == Failure(result.error.cause)
      && forall i :: 0 <= i < result.error.row ==> DurationToSeconds(rows[i].duration).Success?
    ensures result.Success? ==>
      && |result.value| == |rows|
      && forall i :: 0 <= i < |rows| ==>
        && result.value[i].row == rows[i]
        && DurationToSeconds(rows[i].duration) == Success(result.value[i].seconds)
        && Derived(result.value[i])
  {
    var converted := DurationColumn(rows);
    ConvertedSuccess(rows, DurationToSeconds);
    if converted.Failure? {
      ConvertedFailure(rows, DurationToSeconds);
      return Failure(converted.error);
    }
    ConvertedValues(rows, DurationToSeconds);
    return Success(WithPeriods(rows, converted.value));
  }

  /** The conversion of the column, row by row. */
  method DurationColumn(rows: seq<ViewingRow>) returns (result: Result<seq<int>, LoadError>)
    ensures result == Converted(rows, DurationToSeconds)
  {
    var seconds: seq<int> := [];
    for i := 0 to |rows|
      invariant Converted(rows[..i], DurationToSeconds) == Success(seconds)
    {
      assert rows[..i + 1][..i] == rows[..i];
      var parsed := DurationToSeconds(rows[i].duration);
      if parsed.Failure? {
        assert Converted(rows[..i + 1], DurationToSeconds) == Failure(LoadError(i, parsed.error));
        ConvertedAborts(rows, DurationToSeconds, i);
        return Failure(LoadError(i, parsed.error));
      }
      seconds := seconds + [parsed.value];
    }
    assert rows[..|rows|] == rows;
    return Success(seconds);
  }

  /** Two rows started in the same calendar month share a `Month-Year`, whatever the day or hour; and only they do. */
  lemma SameMonthBucket(a: Record, b: Record)
    requires Derived(a) && Derived(b)
    ensures a.monthYear == b.monthYear <==>
      a.row.startTime.date.year == b.row.startTime.date.year && a.row.startTime.date.month == b.row.startTime.date.month
  {
    MonthLabelSame(a.row.startTime.date, b.row.startTime.date);
  }

  /** Two rows share a `Week` exactly when they started in the same Monday-to-Sunday week. */
  lemma SameWeekBucket(a: Record, b: Record)
    requires Derived(a) && Derived(b)
    ensures a.week == b.week <==> WeekNumber(a.row.startTime.date) == WeekNumber(b.row.startTime.date)
  {
    WeekLabelSame(a.row.startTime.date, b.row.startTime.date);
  }

  /** `Month-Year` labels sort as strings exactly as the months they name sort in time. */
  lemma MonthOrder(a: Record, b: Record)
    requires Derived(a) && Derived(b)
    ensures LexLess(a.monthYear, b.monthYear) <==>
      || a.row.startTime.date.year < b.row.startTime.date.year
      || (a.row.startTime.date.year == b.row.startTime.date.year && a.row.startTime.date.month < b.row.startTime.date.month)
  {
    MonthLabelOrder(a.row.startTime.date, b.row.startTime.date);
  }

  /** `Week` labels sort as strings exactly as the weeks they name sort in time. */
  lemma WeekOrder(a: Record, b: Record)
    requires Derived(a) && Derived(b)
    ensures LexLess(a.week, b.week) <==> WeekNumber(a.row.startTime.date) < WeekNumber(b.row.startTime.date)
  {
    WeekLabelOrder(a.row.startTime.date, b.row.startTime.date);
  }

  /** Two rows share a `Weekday` exactly when they started on the same day of the week. */
  lemma SameWeekdayBucket(a: Record, b: Record)
    requires Derived(a) && Derived(b)
    ensures a.weekday == b.weekday <==> WeekdayIndex(a.row.startTime.date) == WeekdayIndex(b.row.startTime.date)
  {
    DayNameSame(a.row.startTime.date, b.row.startTime.date);
  }

  /** Every derived `Weekday` is one of the seven names of `weekday_order`. */
  lemma WeekdayIsNamed(r: Record)
    requires Derived(r)
    ensures r.weekday in WeekdayOrder
  {
  }
}
