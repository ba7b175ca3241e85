/**
 * The calendar arithmetic behind `dt.to_period('M')`, `dt.to_period('W')` and
 * `dt.day_name()`: proleptic Gregorian dates, a day count, weekdays, Monday-to-Sunday
 * weeks and the period labels pandas prints for them.
 */
module Calendar {
  import opened Text

  datatype Date = Date(year: int, month: int, day: int)

  predicate IsLeapYear(y: int) {
    y % 4 == 0 && (y % 100 != 0 || y % 400 == 0)
  }

  function DaysInMonth(y: int, m: int): int
    requires 1 <= m <= 12
  {
    if m == 2 then (if IsLeapYear(y) then 29 else 28)
    else if m == 4 || m == 6 || m == 9 || m == 11 then 30
    else 31
  }

  function DaysInYear(y: int): int {
    if IsLeapYear(y) then 366 else 365
  }

  predicate ValidDate(d: Date) {
    1 <= d.year && 1 <= d.month <= 12 && 1 <= d.day <= DaysInMonth(d.year, d.month)
  }

  /** Days of year `y` before the first of month `m` (`m == 13` gives the whole year). */
  function DaysBeforeMonth(y: int, m: int): int
    requires 1 <= m <= 13
  {
    [0, 31, 59, 90, 120, 151, 181, 212, 243, 273, 304, 334, 365][m - 1]
    + (if m > 2 && IsLeapYear(y) then 1 else 0)
  }

  /** Days before the first of January of year `y`, counted from 0001-01-01. */
  function DaysBeforeYear(y: int): int
    requires y >= 1
  {
    var p := y - 1;
    365 * p + p / 4 - p / 100 + p / 400
  }

  /** The day number of `d`, 0001-01-01 being day 1 (Python's `date.toordinal()`). */
  function Ordinal(d: Date): int
    requires ValidDate(d)
  {
    DaysBeforeYear(d.year) + DaysBeforeMonth(d.year, d.month) + d.day
  }

  /** Chronological order of dates: year, then month, then day. */
  predicate Before(a: Date, b: Date) {
    a.year < b.year
    || (a.year == b.year && a.month < b.month)
    || (a.year == b.year && a.month == b.month && a.day < b.day)
  }

  // ---------------------------------------------------------------------------
  // The day count is a bijection that respects chronological order
  // ---------------------------------------------------------------------------

  lemma DaysBeforeMonthStep(y: int, m: int)
    requires 1 <= m <= 12
    ensures DaysBeforeMonth(y, m + 1) == DaysBeforeMonth(y, m) + DaysInMonth(y, m)
  {
  }

  lemma DaysBeforeYearStep(y: int)
    requires y >= 1
    ensures DaysBeforeYear(y + 1) == DaysBeforeYear(y) + DaysInYear(y)
  {
    LeapQuotients(y);
  }

  /** Going from year `y - 1` to `y` adds one to the count of multiples of 4, 100 and 400 exactly at their multiples. */
  lemma LeapQuotients(y: int)
    ensures y / 4 == (y - 1) / 4 + (if y % 4 == 0 then 1 else 0)
    ensures y / 100 == (y - 1) / 100 + (if y % 100 == 0 then 1 else 0)
    ensures y / 400 == (y - 1) / 400 + (if y % 400 == 0 then 1 else 0)
  {
  }

  lemma {:induction false} DaysBeforeYearMonotone(y1: int, y2: int)
    requires 1 <= y1 <= y2
    ensures DaysBeforeYear(y1) <= DaysBeforeYear(y2)
    decreases y2 - y1
  {
    if y1 < y2 {
      DaysBeforeYearMonotone(y1, y2 - 1);
      DaysBeforeYearStep(y2 - 1);
    }
  }

  /** A day of a year lies within that year's days. */
  lemma DayOfYearBounds(d: Date)
    requires ValidDate(d)
    ensures 1 <= DaysBeforeMonth(d.year, d.month) + d.day <= DaysInYear(d.year)
  {
    DaysBeforeMonthStep(d.year, d.month);
    assert DaysBeforeMonth(d.year, d.month + 1) <= DaysBeforeMonth(d.year, 13);
  }

  lemma OrdinalBefore(a: Date, b: Date)
    requires ValidDate(a) && ValidDate(b) && Before(a, b)
    ensures Ordinal(a) < Ordinal(b)
  {
    DayOfYearBounds(a);
    DayOfYearBounds(b);
    if a.year < b.year {
      DaysBeforeYearStep(a.year);
      DaysBeforeYearMonotone(a.year + 1, b.year);
    } else if a.month < b.month {
      DaysBeforeMonthStep(a.year, a.month);
      assert DaysBeforeMonth(a.year, a.month + 1) <= DaysBeforeMonth(a.year, b.month);
    }
  }

  /** Later days have larger day numbers, and distinct days distinct numbers. */
  lemma OrdinalOrder(a: Date, b: Date)
    requires ValidDate(a) && ValidDate(b)
    ensures Ordinal(a) < Ordinal(b) <==> Before(a, b)
    ensures Ordinal(a) == Ordinal(b) <==> a == b
  {
    if Before(a, b) {
      OrdinalBefore(a, b);
    } else if Before(b, a) {
      OrdinalBefore(b, a);
    }
  }

  // ---------------------------------------------------------------------------
  // Stepping through days
  // ---------------------------------------------------------------------------

  function NextDay(d: Date): (r: Date)
    requires ValidDate(d)
    ensures ValidDate(r) && Ordinal(r) == Ordinal(d) + 1
    ensures d.year <= r.year <= d.year + 1
  {
    if d.day < DaysInMonth(d.year, d.month) then Date(d.year, d.month, d.day + 1)
    else if d.month < 12 then
      DaysBeforeMonthStep(d.year, d.month);
      Date(d.year, d.month + 1, 1)
    else
      DaysBeforeYearStep(d.year);
      Date(d.year + 1, 1, 1)
  }

  function PrevDay(d: Date): (r: Date)
    requires ValidDate(d) && d.year >= 2
    ensures ValidDate(r) && Ordinal(r) == Ordinal(d) - 1
    ensures d.year - 1 <= r.year <= d.year
  {
    if d.day > 1 then Date(d.year, d.month, d.day - 1)
    else if d.month > 1 then
      DaysBeforeMonthStep(d.year, d.month - 1);
      Date(d.year, d.month - 1, DaysInMonth(d.year, d.month - 1))
    else
      DaysBeforeYearStep(d.year - 1);
      Date(d.year - 1, 12, 31)
  }

  /** The date `n` days after `d`. */
  function DaysLater(d: Date, n: nat): (r: Date)
    requires ValidDate(d)
    ensures ValidDate(r) && Ordinal(r) == Ordinal(d) + n
    ensures d.year <= r.year <= d.year + n
  {
    if n == 0 then d else NextDay(DaysLater(d, n - 1))
  }

  /** The date `n` days before `d`. */
  function DaysEarlier(d: Date, n: nat): (r: Date)
    requires ValidDate(d) && d.year > n
    ensures ValidDate(r) && Ordinal(r) == Ordinal(d) - n
    ensures d.year - n <= r.year <= d.year
  {
    if n == 0 then d else PrevDay(DaysEarlier(d, n - 1))
  }

  // ---------------------------------------------------------------------------
  // Weekdays and Monday-to-Sunday weeks
  // ---------------------------------------------------------------------------

  /** `weekday_order`: the names `day_name()` gives, Monday first. */
  const WeekdayOrder: seq<string> :=
    ["Monday", "Tuesday", "Wednesday", "Thursday", "Friday", "Saturday", "Sunday"]

  /** 0 for Monday up to 6 for Sunday; 0001-01-01 was a Monday. */
  function WeekdayIndex(d: Date): (w: int)
    requires ValidDate(d)
    ensures 0 <= w < 7
  {
    (Ordinal(d) + 6) % 7
  }

  /** The English weekday name of `d`. */
  function DayName(d: Date): (name: string)
    requires ValidDate(d)
    ensures name in WeekdayOrder
    ensures name == WeekdayOrder[WeekdayIndex(d)]
  {
    WeekdayOrder[WeekdayIndex(d)]
  }

  /** The seven names are distinct: two dates share a name exactly when they share a weekday. */
  lemma DayNameSame(a: Date, b: Date)
    requires ValidDate(a) && ValidDate(b)
    ensures DayName(a) == DayName(b) <==> WeekdayIndex(a) == WeekdayIndex(b)
  {
    var starts := ["Mo", "Tu", "We", "Th", "Fr", "Sa", "Su"];
    forall i | 0 <= i < 7 ensures WeekdayOrder[i][..2] == starts[i] {
    }
    forall i, j | 0 <= i < j < 7 ensures WeekdayOrder[i] != WeekdayOrder[j] {
      assert starts[i] != starts[j];
    }
  }

  /** The weekday moves on by one each day, Sunday being followed by Monday. */
  lemma NextDayWeekday(d: Date)
    requires ValidDate(d)
    ensures WeekdayIndex(NextDay(d)) == (WeekdayIndex(d) + 1) % 7
  {
    var o := Ordinal(d);
    assert Ordinal(NextDay(d)) == o + 1;
    ModSevenStep(o + 6);
  }

  lemma ModSevenStep(n: int)
    ensures (n + 1) % 7 == (n % 7 + 1) % 7
  {
  }

  /** The Unix epoch, 1970-01-01, was a Thursday. */
  lemma EpochWasThursday()
    ensures Ordinal(Date(1970, 1, 1)) == 719163
    ensures DayName(Date(1970, 1, 1)) == "Thursday"
  {
  }

  /** The Monday-based week a date falls in; week 1 holds 0001-01-01 .. 0001-01-07. */
  function WeekNumber(d: Date): (n: int)
    requires ValidDate(d)
    ensures 7 * n - 6 <= Ordinal(d) <= 7 * n
  {
    (Ordinal(d) + 6) / 7
  }

  /** Dates far enough from year 1 and year 9999 for their whole week to keep four-digit years. */
  predicate InLabelRange(d: Date) {
    ValidDate(d) && 7 <= d.year <= 9992
  }

  /** The Monday of the week of `d`. */
  function WeekStart(d: Date): (s: Date)
    requires InLabelRange(d)
    ensures ValidDate(s) && d.year - 6 <= s.year <= d.year
    ensures Ordinal(s) == Ordinal(d) - WeekdayIndex(d)
  {
    DaysEarlier(d, WeekdayIndex(d))
  }

  /** The Sunday of the week of `d`. */
  function WeekEnd(d: Date): (e: Date)
    requires InLabelRange(d)
    ensures ValidDate(e) && d.year <= e.year <= d.year + 6
    ensures Ordinal(e) == Ordinal(d) + 6 - WeekdayIndex(d)
  {
    DaysLater(d, 6 - WeekdayIndex(d))
  }

  /** Stepping back from day `o` by its weekday index `w` lands on the first day of its week. */
  lemma WeekArithmetic(o: int, w: int)
    requires w == (o + 6) % 7
    ensures o - w == 7 * ((o + 6) / 7) - 6
  {
  }

  /**
   * The week of `d` runs from day `7 * WeekNumber(d) - 6` to day `7 * WeekNumber(d)`, so it
   * lasts seven days and holds `d`.
   */
  lemma WeekBounds(d: Date)
    requires InLabelRange(d)
    ensures Ordinal(WeekStart(d)) == 7 * WeekNumber(d) - 6
    ensures Ordinal(WeekEnd(d)) == 7 * WeekNumber(d)
    ensures Ordinal(WeekStart(d)) <= Ordinal(d) <= Ordinal(WeekEnd(d))
  {
    WeekArithmetic(Ordinal(d), WeekdayIndex(d));
  }

  /** Every week starts on a Monday. */
  lemma WeekStartsMonday(d: Date)
    requires InLabelRange(d)
    ensures WeekdayIndex(WeekStart(d)) == 0
  {
    WeekBounds(d);
    WeekdayOfDay(WeekNumber(d), 0, Ordinal(WeekStart(d)));
  }

  /** Every week ends on a Sunday. */
  lemma WeekEndsSunday(d: Date)
    requires InLabelRange(d)
    ensures WeekdayIndex(WeekEnd(d)) == 6
  {
    WeekBounds(d);
    WeekdayOfDay(WeekNumber(d), 6, Ordinal(WeekEnd(d)));
  }

  /** Day `o`, the `k`-th day of week `n`, has weekday index `k`. */
  lemma WeekdayOfDay(n: int, k: int, o: int)
    requires 0 <= k < 7 && o == 7 * n - 6 + k
    ensures (o + 6) % 7 == k
  {
  }

  // ---------------------------------------------------------------------------
  // Period labels, as `astype(str)` prints them
  // ---------------------------------------------------------------------------

  /** `YYYY-MM`, the label of a monthly period. */
  function MonthLabel(d: Date): (s: string)
    requires ValidDate(d) && d.year <= 9999
    ensures |s| == 7
  {
    PadDigits(d.year, 4) + "-" + PadDigits(d.month, 2)
  }

  /** `YYYY-MM-DD`. */
  function DateLabel(d: Date): (s: string)
    requires ValidDate(d) && d.year <= 9999
    ensures |s| == 10
  {
    MonthLabel(d) + "-" + PadDigits(d.day, 2)
  }

  /** `YYYY-MM-DD/YYYY-MM-DD`, the label of a weekly period: its Monday and its Sunday. */
  function WeekLabel(d: Date): (s: string)
    requires InLabelRange(d)
    ensures |s| == 21
  {
    DateLabel(WeekStart(d)) + "/" + DateLabel(WeekEnd(d))
  }

  /** Appending the same separator keeps equality and order of equally long strings. */
  lemma AppendSeparator(x: string, y: string, sep: string)
    requires |x| == |y|
    ensures x + sep == y + sep <==> x == y
    ensures LexLess(x + sep, y + sep) <==> LexLess(x, y)
  {
    LexLessAppend(x, y, sep, sep);
    LexLessIrreflexive(sep);
    LexLessIrreflexive(x);
    if x + sep == y + sep {
      assert (x + sep)[..|x|] == x && (y + sep)[..|y|] == y;
    }
  }

  /** Month labels sort chronologically. */
  lemma MonthLabelOrder(a: Date, b: Date)
    requires ValidDate(a) && a.year <= 9999 && ValidDate(b) && b.year <= 9999
    ensures LexLess(MonthLabel(a), MonthLabel(b))
        <==> a.year < b.year || (a.year == b.year && a.month < b.month)
  {
    var ya, yb := PadDigits(a.year, 4), PadDigits(b.year, 4);
    LexLessAppend(ya + "-", yb + "-", PadDigits(a.month, 2), PadDigits(b.month, 2));
    AppendSeparator(ya, yb, "-");
    PadDigitsInjective(a.year, b.year, 4);
    PadDigitsOrder(a.year, b.year, 4);
    PadDigitsOrder(a.month, b.month, 2);
  }

  /** Two dates share a month label exactly when they share year and month, whatever their days. */
  lemma MonthLabelSame(a: Date, b: Date)
    requires ValidDate(a) && a.year <= 9999 && ValidDate(b) && b.year <= 9999
    ensures MonthLabel(a) == MonthLabel(b) <==> a.year == b.year && a.month == b.month
  {
    MonthLabelOrder(a, b);
    MonthLabelOrder(b, a);
    LexLessIrreflexive(MonthLabel(a));
  }

  /** Date labels sort chronologically. */
  lemma DateLabelOrder(a: Date, b: Date)
    requires ValidDate(a) && a.year <= 9999 && ValidDate(b) && b.year <= 9999
    ensures LexLess(DateLabel(a), DateLabel(b)) <==> Before(a, b)
  {
    var ma, mb := MonthLabel(a), MonthLabel(b);
    LexLessAppend(ma + "-", mb + "-", PadDigits(a.day, 2), PadDigits(b.day, 2));
    AppendSeparator(ma, mb, "-");
    MonthLabelSame(a, b);
    MonthLabelOrder(a, b);
    PadDigitsOrder(a.day, b.day, 2);
  }

  lemma DateLabelSame(a: Date, b: Date)
    requires ValidDate(a) && a.year <= 9999 && ValidDate(b) && b.year <= 9999
    ensures DateLabel(a) == DateLabel(b) <==> a == b
  {
    DateLabelOrder(a, b);
    DateLabelOrder(b, a);
    LexLessIrreflexive(DateLabel(a));
  }

  /** Week labels sort in the order of the weeks. */
  lemma WeekLabelOrder(a: Date, b: Date)
    requires InLabelRange(a) && InLabelRange(b)
    ensures LexLess(WeekLabel(a), WeekLabel(b)) <==> WeekNumber(a) < WeekNumber(b)
  {
    var sa, sb := WeekStart(a), WeekStart(b);
    WeekBounds(a);
    WeekBounds(b);
    var la, lb := DateLabel(sa), DateLabel(sb);
    LexLessAppend(la + "/", lb + "/", DateLabel(WeekEnd(a)), DateLabel(WeekEnd(b)));
    AppendSeparator(la, lb, "/");
    DateLabelSame(sa, sb);
    DateLabelOrder(sa, sb);
    OrdinalOrder(sa, sb);
    OrdinalOrder(WeekEnd(a), WeekEnd(b));
    LexLessIrreflexive(DateLabel(WeekEnd(a)));
  }

  /** Two dates share a week label exactly when they fall in the same Monday-to-Sunday week. */
  lemma WeekLabelSame(a: Date, b: Date)
    requires InLabelRange(a) && InLabelRange(b)
    ensures WeekLabel(a) == WeekLabel(b) <==> WeekNumber(a) == WeekNumber(b)
  {
    var la, lb := WeekLabel(a), WeekLabel(b);
    WeekLabelOrder(a, b);
    WeekLabelOrder(b, a);
    if la == lb {
      LexLessIrreflexive(la);
    } else {
      LexLessTotal(la, lb);
    }
  }

  /** Any two dates between one Monday and the following Sunday get the same week label. */
  lemma SameWeekSameLabel(a: Date, b: Date, monday: int)
    requires InLabelRange(a) && InLabelRange(b)
    requires (monday + 6) % 7 == 0
    requires monday <= Ordinal(a) <= monday + 6 && monday <= Ordinal(b) <= monday + 6
    ensures WeekLabel(a) == WeekLabel(b)
  {
    assert WeekNumber(a) == (monday + 6) / 7 == WeekNumber(b);
    WeekLabelSame(a, b);
  }

  // ---------------------------------------------------------------------------
  // Timestamps
  // ---------------------------------------------------------------------------

  /** The years a nanosecond pandas Timestamp can hold (1677-09-21 to 2262-04-11, rounded to whole years). */
  const FirstYear := 1677
  const LastYear := 2262

  datatype DateTime = DateTime(date: Date, hour: int, minute: int, second: int)

  /** A `Start Time` as `pd.to_datetime` leaves it: a real date and time of day within the range of a Timestamp. */
  predicate IsTimestamp(t: DateTime) {
    && ValidDate(t.date)
    && FirstYear <= t.date.year <= LastYear
    && 0 <= t.hour < 24 && 0 <= t.minute < 60 && 0 <= t.second < 60
  }

  /** `to_period('M').astype(str)`. */
  function MonthPeriod(t: DateTime): string
    requires IsTimestamp(t)
  {
    MonthLabel(t.date)
  }

  /** `to_period('W').astype(str)`: weeks end on Sunday. */
  function WeekPeriod(t: DateTime): string
    requires IsTimestamp(t)
  {
    WeekLabel(t.date)
  }

  /** `day_name()`. */
  function WeekdayName(t: DateTime): string
    requires IsTimestamp(t)
  {
    DayName(t.date)
  }
}
