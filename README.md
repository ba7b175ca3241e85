# Netflix viewing-activity analysis, modelled in Dafny

The application reads a Netflix `ViewingActivity.csv` export. It converts each row's
`Duration` text (`H:M:S`) to seconds and labels each row with its calendar month, its
Monday-to-Sunday week and its weekday. Then, for every profile on the account, it charts:

- the hours watched per month;
- the hours watched per week;
- the share of hours that fell on each weekday.

A last chart compares all profiles month by month.

This project models the numbers behind those charts. It does not model the charts or the
page around them. Its modules follow the program's steps:

- `Text` (`text.dfy`): Python's string order (used for the sorted keys of `groupby`),
  decimal digits and zero padding, and `str.split` with its inverse `join`.
- `Duration` (`duration.dfy`): `duration_to_seconds`. `int` is modelled with Python's
  literal grammar:
  - white space around the number;
  - an optional sign;
  - digit groups joined by single underscores;
  - at most 4300 digits, underscores not counted (CPython's default limit).

  `h, m, s = map(int, ...)` is modelled the way CPython unpacks a lazy iterator. Each
  piece is converted when it is pulled, and a fourth one is pulled (and converted) before
  the unpacking fails. That order decides which error a bad text raises.
- `Calendar` (`calendar.dfy`): proleptic Gregorian dates and their day number (Python's
  `toordinal`), weekdays, Monday-to-Sunday weeks, and the period labels pandas prints:
  - `YYYY-MM` from `to_period('M')`;
  - `YYYY-MM-DD/YYYY-MM-DD` from `to_period('W')`;
  - the English name from `day_name()`.
- `Loader` (`loader.dfy`): `load_data`.
  - The duration column is converted row by row, and the first bad row aborts the load.
  - The three period columns are then added.
  - The loop is a method, proved against the left fold `Converted`.
- `Grouping` (`grouping.dfy`): `groupby(...)['Duration (s)'].sum()` as an explicit fold
  into buckets kept in ascending key order.
- `Analysis` (`analysis.dfy`):
  - the per-profile series;
  - the weekday shares, with IEEE division's `nan` and infinities for a zero total;
  - the month-by-profile comparison: a group-by on the pair (month, profile), spread into a
    table, with `fillna(0)`;
  - `unique()` on the profile names;
  - `main`'s loop over the profiles.

The per-profile series and the comparison are stated in whole seconds, before the
source's division by 3600. The weekday shares divide hours by hours, and the model computes
them with exact reals. `Outcomes` (`outcomes.dfy`) holds the `Option` and `Result` types.

## Model

| member | source | states |
|---|---|---|
| Text.SplitJoin | app.py:15 | Splitting colon-free pieces joined with `:` on `:` gives exactly those pieces back |
| Text.JoinSplit | app.py:15 | `split` loses nothing: joining its pieces with the separator rebuilds the text |
| Text.Split | app.py:15 | `str.split`: at least one piece, none containing the separator; `SplitJoin` and `JoinSplit` show that joining undoes it |
| Duration.UnsignedAccepts | app.py:15 | The literal grammar of `int` accepts the unsigned part of a text exactly when it is digit groups joined by single underscores |
| Duration.UnsignedValue | app.py:15 | The value `int` reads from such a part is the decimal value of its digits, with the underscores dropped |
| Duration.PyIntOfDigits | app.py:15 | A plain digit string of at most 4300 digits, zero-padded or not, is read as the number it denotes |
| Duration.PyIntNeedsDigit | app.py:15 | A text with no digit in it always makes `int` raise |
| Duration.PyInt | app.py:15 | `int` on one piece. Its contract is given by `UnsignedAccepts`, `UnsignedValue`, `PyIntOfDigits`, `PyIntTooLong` and `PyIntNeedsDigit` |
| Duration.PyIntTooLong | app.py:15 | A digit string longer than 4300 digits makes `int` raise, whatever its value |
| Duration.UnpackFrom | app.py:15 | Pulling and converting the pieces one by one, from any point up to the first bad piece, ends in the closed-form outcome `Unpacked` |
| Duration.DurationOutcome | app.py:14-16 | Full outcome: the first rejected piece among the first four raises; otherwise fewer than three pieces or more than three raise; otherwise the result is `3600*h + 60*m + s` |
| Duration.DurationSucceeds | app.py:15 | A duration converts exactly when it has three pieces and `int` accepts each of them |
| Duration.WrongPieceCountFails | app.py:15 | A text that does not split into three pieces is always an error |
| Duration.DurationOfDigits | app.py:14-16 | `h:m:s` digit groups of any widths up to 4300 digits give `3600*h + 60*m + s`, with no clock bound on `h`, `m` or `s` |
| Duration.DurationOfPieces | app.py:14-16 | Any three pieces that `int` reads as `h`, `m`, `s` give `3600*h + 60*m + s` |
| Duration.DurationToSeconds | app.py:14-16 | `duration_to_seconds`. Its contract is given by `DurationOutcome`, `DurationSucceeds`, `WrongPieceCountFails`, `DurationOfDigits`, `DurationOfPieces`, `LongHoursFail` and `TwoPiecesFail` |
| Duration.LongHoursFail | app.py:15 | An hours field of more than 4300 digits makes the whole duration fail on that field |
| Duration.TwoPiecesFail | app.py:15 | `"1:2"` fails with "not enough values", having found two |
| Calendar.OrdinalOrder | app.py:21 | The day number is one-to-one and follows chronological order |
| Calendar.DayName | app.py:25 | The weekday name is one of the seven names of `weekday_order`, picked by the weekday index |
| Calendar.DayNameSame | app.py:25 | Two dates share a weekday name exactly when they share a weekday |
| Calendar.NextDayWeekday | app.py:25 | The weekday advances by one each day, and Sunday is followed by Monday |
| Calendar.EpochWasThursday | app.py:25 | 1970-01-01 is day 719163 and a Thursday, as in Python |
| Calendar.WeekBounds | app.py:24 | The week of a date runs seven days, from day `7n-6` to `7n`, and holds the date |
| Calendar.WeekStartsMonday | app.py:24 | A weekly period starts on a Monday |
| Calendar.WeekEndsSunday | app.py:24 | A weekly period ends on a Sunday (pandas `W` is `W-SUN`) |
| Calendar.MonthLabelOrder | app.py:23 | `YYYY-MM` labels sort as strings exactly as their months sort in time |
| Calendar.MonthLabelSame | app.py:23 | Two dates share a month label exactly when they share year and month |
| Calendar.DateLabelOrder | app.py:24 | `YYYY-MM-DD` labels sort as strings exactly as the dates sort in time |
| Calendar.DateLabelSame | app.py:24 | Two dates share a date label exactly when they are the same date |
| Calendar.WeekLabelOrder | app.py:24 | Week labels sort as strings exactly as the weeks sort in time |
| Calendar.WeekLabelSame | app.py:24 | Two dates share a week label exactly when they fall in the same Monday-to-Sunday week |
| Calendar.SameWeekSameLabel | app.py:24 | Any two dates between one Monday and the following Sunday get the same week label |
| Calendar.MonthPeriod | app.py:23 | `to_period('M')` as text. Its contract is given by `MonthLabelOrder` and `MonthLabelSame` |
| Calendar.WeekPeriod | app.py:24 | `to_period('W')` as text. Its contract is given by `WeekLabelOrder`, `WeekLabelSame`, `SameWeekSameLabel`, `WeekStartsMonday` and `WeekEndsSunday` |
| Calendar.WeekdayName | app.py:25 | `day_name()`. Its contract is given by `DayName`, `DayNameSame` and `NextDayWeekday` |
| Loader.WithPeriods | app.py:23-25 | Each record keeps its own row and seconds, and gets the month, week and weekday of its own `Start Time` |
| Loader.Converted | app.py:22 | `apply(duration_to_seconds)` on the column, the first error aborting. Its contract is given by `ConvertedValues`, `ConvertedSuccess`, `ConvertedFailure` and `ConvertedAborts` |
| Loader.ConvertedValues | app.py:22 | A converted column has one value per row, each that row's converted duration |
| Loader.ConvertedSuccess | app.py:22 | The column converts exactly when every duration converts |
| Loader.ConvertedFailure | app.py:22 | A failed column reports the first row whose duration raises, and what it raised |
| Loader.ConvertedAborts | app.py:22 | Once a prefix of the column has failed, the rows after it are never converted |
| Loader.DurationColumn | app.py:22 | The row-by-row conversion loop computes exactly `Converted` |
| Loader.LoadData | app.py:19-26 | The load succeeds exactly when every duration converts; a failure names the first bad row and returns no table. Otherwise there is one record per row, in order, with its columns unchanged, its seconds converted and its periods derived |
| Loader.SameMonthBucket | app.py:23 | Two rows share `Month-Year` exactly when they started in the same year and month, whatever the day |
| Loader.MonthOrder | app.py:23 | `Month-Year` values sort as strings exactly as the months sort in time |
| Loader.SameWeekBucket | app.py:24 | Two rows share `Week` exactly when they started in the same Monday-to-Sunday week |
| Loader.WeekOrder | app.py:24 | `Week` values sort as strings exactly as the weeks sort in time |
| Loader.SameWeekdayBucket | app.py:25 | Two rows share `Weekday` exactly when they started on the same day of the week |
| Loader.WeekdayIsNamed | app.py:25 | Every derived `Weekday` is one of the seven names of `weekday_order` |
| Grouping.Accumulate | app.py:30 | Adding one row keeps the keys ascending, adds its key, and adds its seconds to its key alone and to the total |
| Grouping.GroupSum | app.py:30 | Group-and-sum gives ascending keys and exactly the rows' keys. Each key keeps the seconds of its rows, and the total is unchanged |
| Grouping.GroupSumBucket | app.py:30 | Each bucket of a group-and-sum holds the seconds of exactly the rows with its key |
| Grouping.AscendingKeys | app.py:53 | The index of a grouped series is strictly ascending and lists exactly its keys |
| Grouping.LookupAscending | app.py:53 | Looking a key up in a grouped series finds all its seconds, or nothing when the key is absent |
| Analysis.SeriesBuckets | app.py:30 | A profile's series (also app.py:36 and :42): keys ascending, one bucket per period the profile watched in and no other. Each bucket holds the seconds of exactly that profile's rows in that period, and all buckets add up to the profile's total |
| Analysis.Series | app.py:30 | A profile's rows grouped and summed by one period column (also app.py:36 and :42). Its contract is given by `SeriesBuckets`, `SeriesLookup` and `OtherUsersIgnored` |
| Analysis.MonthlySeconds | app.py:30 | The monthly series. Its contract is given by `SeriesBuckets` and `MonthlyChronological` |
| Analysis.WeeklySeconds | app.py:36 | The weekly series. Its contract is given by `SeriesBuckets` and `WeeklyChronological` |
| Analysis.WeekdaySeconds | app.py:42 | The weekday series. Its contract is given by `SeriesBuckets` and `WeekdayNames` |
| Analysis.SeriesLookup | app.py:30 | A period's entry in a profile's series is the profile's seconds there, or absent when the profile has no row there |
| Analysis.OtherUsersIgnored | app.py:30 | Another profile's row, wherever it sits, changes nothing in a profile's series |
| Analysis.UnwatchedIsZero | app.py:30 | A period a profile never watched in holds no seconds of that profile |
| Analysis.MonthlyChronological | app.py:30 | The monthly series is chronological: rows behind an earlier bucket started in an earlier month |
| Analysis.WeeklyChronological | app.py:36 | The weekly series is chronological: rows behind an earlier bucket started in an earlier week |
| Analysis.WeekdayNames | app.py:42 | Every bucket of the weekday series is named by one of the seven names of `weekday_order` |
| Analysis.WeekdaySharesSum | app.py:42-45 | For a profile with a non-zero total, each weekday's share is 100 times its seconds over the total seconds, and the shares add up to 100 |
| Analysis.WeekdayShares | app.py:42-45 | The weekday shares before rounding. Their contract is given by `WeekdaySharesSum` and `WeekdaySharesUndefined` |
| Analysis.WeekdaySharesUndefined | app.py:43-45 | For a profile with a zero total, a weekday with no seconds gets `nan` and one with seconds gets an infinity of their sign |
| Analysis.ComparisonAxes | app.py:53 | The comparison's rows are the months in which any profile watched, and its columns are all the profiles. Each axis lists every value once, in ascending order |
| Analysis.MonthlyComparison | app.py:53 | The pivot: one row of cells per month, each as long as the list of profiles. Its contract is given by `ComparisonAxes`, `ComparisonCells`, `ComparisonAgrees` and `ComparisonColumnTotal` |
| Analysis.MonthGroup | app.py:53 | One month of the group-by on (month, profile). Its contract is given by `MonthGroupLookup` |
| Analysis.MonthGroupLookup | app.py:53 | The (month, profile) entry holds that profile's seconds in that month, or is absent when the profile has no row there |
| Analysis.ComparisonCells | app.py:53 | A cell holds that profile's seconds in that month, and 0 where the profile has no row in that month |
| Analysis.ComparisonAgrees | app.py:53 | The pivot, built from the (month, profile) group-by, agrees with each profile's own monthly series: every bucket's month is a row, and the cell there holds the bucket's seconds |
| Analysis.ComparisonColumnTotal | app.py:53 | A profile's column adds up to everything that profile watched |
| Analysis.Unique | app.py:90 | `unique()` has no duplicates and the same members as its input |
| Analysis.Users | app.py:90 | `df['Profile Name'].unique()`. Its contract is given by `Unique`, `UsersInFirstAppearanceOrder` and `UsersAreColumns` |
| Analysis.UniqueOrder | app.py:90 | `unique()` keeps the values in the order in which they first appear |
| Analysis.UsersInFirstAppearanceOrder | app.py:90 | The profile list is in the order of each profile's first row |
| Analysis.UsersAreColumns | app.py:90 | The profile list holds each profile once. It has the same names as the comparison's columns and as many, but in first-appearance order instead of sorted order |
| Analysis.Sections | app.py:94-98 | The loop over the profiles produces, in order, the monthly series, weekly series and weekday shares of each profile |
| Analysis.Analyse | app.py:89-101 | After loading, there is one section per profile of the table, each profile exactly once, in first-appearance order, followed by the comparison |

## Left out

- The Streamlit page (title, instructions, upload widget, button, preview, headings) and
  the choice between an uploaded file and the example file (app.py:62-88). These are
  presentation and request handling. The model starts from a loaded table: `Analyse`
  models what `main` computes once `df` is not `None`.
- The Plotly figures and `st.plotly_chart` (app.py:31-32, 37-38, 46-49, 54-58). They are
  foreign charting code, and so are the chart titles and axis labels.
- `pd.read_csv` (app.py:20). It is I/O. Rows arrive as `ViewingRow` values with the
  columns the analysis reads; the other columns are carried unchanged. A missing column is
  not modelled.
- `pd.to_datetime` (app.py:21). It is a library parser of many formats. `Start Time`
  arrives already parsed, and `LoadData` requires that every timestamp is a real date and
  time within the years a nanosecond Timestamp can hold. Sub-second precision and time
  zones are not modelled. The Timestamp range (1677-09-21 to 2262-04-11) is widened to
  whole years.
- Loader.LoadData: a blank `Start Time` becomes `NaT`, which the code accepts. Such a row
  gets `'NaT'` as its month and week and a missing weekday, which `groupby` drops. The
  `Parsed` requirement excludes that case, so these rows are not modelled.
- Floating point.
  - Hours are exact reals, `seconds / 3600`, instead of float divisions.
  - `.round(2)` on the weekday shares is not applied.
  - The per-user series and the comparison are stated in seconds; the division by 3600
    is left out.
- Duration.PyInt: `int` also accepts non-ASCII decimal digits (e.g. Arabic-Indic
  digits). The model accepts ASCII digits only, and treats other digits as invalid.
- Duration.MaxStrDigits: the 4300-digit limit is CPython's default from 3.11 and the 2022
  security releases of 3.7 to 3.10. Older interpreters have no limit, and
  `sys.set_int_max_str_digits` can change it; neither is modelled.
- Grouping.GroupSum: sums are unbounded integers. The `Duration (s)` column is int64 when
  every value fits, and its `groupby(...).sum()` (app.py:30, 36, 53) then wraps past
  2^63 - 1 seconds. Values that do not fit, and that wrap-around, are not modelled.
- Durations with negative pieces (`int("-1")` succeeds) are accepted: nothing in
  `load_data` rejects them. The share lemmas therefore require a non-zero total, not a
  positive one.
- Analysis.WeekdaySharesUndefined: for a zero total the model gives `nan` and signed
  infinities, as float division does.
- The pivot's `unstack` is modelled by its result (sorted months by sorted profiles, with
  missing pairs 0). The two-level index of the group-by is modelled one month at a time,
  by `MonthGroup`.
