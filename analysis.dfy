/**
 * The numbers behind the dashboard's charts: each profile's seconds grouped by month,
 * by week and by weekday, the weekday shares, the month-by-profile comparison, and the
 * list of profiles the page walks through.
 */
module Analysis {
  import opened Outcomes
  import opened Text
  import opened Calendar
  import opened Loader
  import opened Grouping

  /** The derived column a per-user chart groups by. */
  datatype Period = ByMonth | ByWeek | ByWeekday

  function Key(r: Record, period: Period): string {
    match period
    case ByMonth => r.monthYear
    case ByWeek => r.week
    case ByWeekday => r.weekday
  }

  /** A table as `load_data` returns it. */
  predicate Loaded(table: seq<Record>) {
    forall i :: 0 <= i < |table| ==> Derived(table[i])
  }

  // ---------------------------------------------------------------------------
  // Reference definitions: sums over the rows themselves
  // ---------------------------------------------------------------------------

  /** The seconds of the rows of `user` whose `period` column is `key`. */
  function SecondsWhere(table: seq<Record>, user: string, period: Period, key: string): int
    decreases |table|
  {
    if |table| == 0 then 0
    else
      (if table[0].row.profileName == user && Key(table[0], period) == key then table[0].seconds else 0)
      + SecondsWhere(table[1..], user, period, key)
  }

  /** All the seconds `user` watched. */
  function UserSeconds(table: seq<Record>, user: string): int
    decreases |table|
  {
    if |table| == 0 then 0
    else (if table[0].row.profileName == user then table[0].seconds else 0) + UserSeconds(table[1..], user)
  }

  /** `user` has a row whose `period` column is `key`. */
  predicate Watched(table: seq<Record>, user: string, period: Period, key: string) {
    exists i :: 0 <= i < |table| && table[i].row.profileName == user && Key(table[i], period) == key
  }

  lemma WatchedCons(table: seq<Record>, user: string, period: Period, key: string)
    requires |table| > 0
    ensures Watched(table, user, period, key) <==>
      (table[0].row.profileName == user && Key(table[0], period) == key) || Watched(table[1..], user, period, key)
  {
    var rest := table[1..];
    if Watched(rest, user, period, key) {
      var i :| 0 <= i < |rest| && rest[i].row.profileName == user && Key(rest[i], period) == key;
      assert table[i + 1] == rest[i];
    }
    if Watched(table, user, period, key) {
      var i :| 0 <= i < |table| && table[i].row.profileName == user && Key(table[i], period) == key;
      if i > 0 {
        assert rest[i - 1] == table[i];
      }
    }
  }

  // ---------------------------------------------------------------------------
  // The per-user series (app.py:30, 36, 42)
  // ---------------------------------------------------------------------------

  /** `df[df['Profile Name'] == user]`, reduced to the grouping column and `Duration (s)`, in row order. */
  function Selected(table: seq<Record>, user: string, period: Period): seq<Bucket>
    decreases |table|
  {
    if |table| == 0 then []
    else
      (if table[0].row.profileName == user then [Bucket(Key(table[0], period), table[0].seconds)] else [])
      + Selected(table[1..], user, period)
  }

  /** `.groupby(column)['Duration (s)'].sum()` over the rows of `user`, in seconds. */
  function Series(table: seq<Record>, user: string, period: Period): seq<Bucket> {
    GroupSum(Selected(table, user, period))
  }

  /** `plot_total_hours_per_month`'s series, before the division by 3600. */
  function MonthlySeconds(table: seq<Record>, user: string): seq<Bucket> {
    Series(table, user, ByMonth)
  }

  /** `plot_total_hours_per_week`'s series, before the division by 3600. */
  function WeeklySeconds(table: seq<Record>, user: string): seq<Bucket> {
    Series(table, user, ByWeek)
  }

  /** `plot_average_hours_per_weekday`'s grouped series, before the division by 3600. */
  function WeekdaySeconds(table: seq<Record>, user: string): seq<Bucket> {
    Series(table, user, ByWeekday)
  }

  lemma {:induction false} SelectedAppend(a: seq<Record>, b: seq<Record>, user: string, period: Period)
    ensures Selected(a + b, user, period) == Selected(a, user, period) + Selected(b, user, period)
    decreases |a|
  {
    if |a| == 0 {
      assert a + b == b;
    } else {
      assert (a + b)[0] == a[0] && (a + b)[1..] == a[1..] + b;
      SelectedAppend(a[1..], b, user, period);
    }
  }

  /** The selected entries carry, key by key, the seconds `SecondsWhere` counts, and all of `user`'s seconds. */
  lemma {:induction false} SelectedSeconds(table: seq<Record>, user: string, period: Period)
    ensures forall key :: SecondsOf(Selected(table, user, period), key) == SecondsWhere(table, user, period, key)
    ensures TotalSeconds(Selected(table, user, period)) == UserSeconds(table, user)
    decreases |table|
  {
    if |table| > 0 {
      var head := if table[0].row.profileName == user then [Bucket(Key(table[0], period), table[0].seconds)] else [];
      var rest := Selected(table[1..], user, period);
      assert Selected(table, user, period) == head + rest;
      SelectedSeconds(table[1..], user, period);
      assert head == [] || head[1..] == [];
      forall key ensures SecondsOf(head + rest, key) == SecondsWhere(table, user, period, key) {
        SecondsOfAppend(head, rest, key);
      }
      TotalSecondsAppend(head, rest);
    }
  }

  /** The selected entries carry exactly the keys of `user`'s rows. */
  lemma {:induction false} SelectedKeys(table: seq<Record>, user: string, period: Period)
    ensures forall key :: key in KeySet(Selected(table, user, period)) <==> Watched(table, user, period, key)
    decreases |table|
  {
    if |table| > 0 {
      var head := if table[0].row.profileName == user then [Bucket(Key(table[0], period), table[0].seconds)] else [];
      var rest := Selected(table[1..], user, period);
      assert Selected(table, user, period) == head + rest;
      SelectedKeys(table[1..], user, period);
      KeySetAppend(head, rest);
      assert KeySet(head) == if head == [] then {} else {head[0].key};
      forall key ensures key in KeySet(head + rest) <==> Watched(table, user, period, key) {
        WatchedCons(table, user, period, key);
      }
    } else {
      assert KeySet([]) == {};
    }
  }

  /** A period `user` never watched in holds nothing. */
  lemma UnwatchedIsZero(table: seq<Record>, user: string, period: Period, key: string)
    requires !Watched(table, user, period, key)
    ensures SecondsWhere(table, user, period, key) == 0
  {
    var s := Selected(table, user, period);
    SelectedKeys(table, user, period);
    SelectedSeconds(table, user, period);
    forall i | 0 <= i < |s| ensures s[i].key != key {
      assert s[i].key in KeySet(s);
    }
    NotInAscending(s, key);
  }

  /**
   * A user's series: buckets in ascending key order, one for each period the user watched
   * in and no other, each holding the seconds of exactly that user's rows in that period,
   * all of them adding up to the user's total.
   */
  lemma SeriesBuckets(table: seq<Record>, user: string, period: Period)
    ensures Ascending(Series(table, user, period))
    ensures forall key :: key in KeySet(Series(table, user, period)) <==> Watched(table, user, period, key)
    ensures forall i :: 0 <= i < |Series(table, user, period)| ==>
      Series(table, user, period)[i].seconds == SecondsWhere(table, user, period, Series(table, user, period)[i].key)
    ensures TotalSeconds(Series(table, user, period)) == UserSeconds(table, user)
  {
    var rows := Selected(table, user, period);
    SelectedSeconds(table, user, period);
    SelectedKeys(table, user, period);
    forall i | 0 <= i < |GroupSum(rows)| ensures GroupSum(rows)[i].seconds == SecondsWhere(table, user, period, GroupSum(rows)[i].key) {
      GroupSumBucket(rows, i);
    }
  }

  /** A row of `user` behind bucket `i` of the user's series. */
  lemma BucketSource(table: seq<Record>, user: string, period: Period, i: nat) returns (r: nat)
    requires i < |Series(table, user, period)|
    ensures r < |table| && table[r].row.profileName == user && Key(table[r], period) == Series(table, user, period)[i].key
  {
    var s := Series(table, user, period);
    SeriesBuckets(table, user, period);
    assert s[i].key in KeySet(s);
    r :| 0 <= r < |table| && table[r].row.profileName == user && Key(table[r], period) == s[i].key;
  }

  /** Looking a period up in a user's series: the user's seconds there, or no bucket at all. */
  lemma SeriesLookup(table: seq<Record>, user: string, period: Period, key: string)
    ensures Lookup(Series(table, user, period), key) ==
      if Watched(table, user, period, key) then Some(SecondsWhere(table, user, period, key)) else None
  {
    var rows := Selected(table, user, period);
    SelectedSeconds(table, user, period);
    SelectedKeys(table, user, period);
    LookupAscending(GroupSum(rows), key);
  }

  /** Another profile's row, wherever it sits in the table, changes nothing in a user's series. */
  lemma OtherUsersIgnored(a: seq<Record>, x: Record, b: seq<Record>, user: string, period: Period)
    requires x.row.profileName != user
    ensures Series(a + [x] + b, user, period) == Series(a + b, user, period)
  {
    SelectedAppend(a + [x], b, user, period);
    SelectedAppend(a, [x], user, period);
    SelectedAppend(a, b, user, period);
    assert Selected([x], user, period) == [] by {
      assert [x][1..] == [];
    }
    assert Selected(a + [x], user, period) == Selected(a, user, period);
    assert Selected(a + [x] + b, user, period) == Selected(a + b, user, period);
  }

  /** The first calendar month comes strictly before the second. */
  predicate MonthBefore(a: Record, b: Record) {
    var x, y := a.row.startTime.date, b.row.startTime.date;
    x.year < y.year || (x.year == y.year && x.month < y.month)
  }

  /** The monthly series runs in calendar order: the rows behind an earlier bucket started in an earlier month. */
  lemma MonthlyChronological(table: seq<Record>, user: string)
    requires Loaded(table)
    ensures forall i, j, a, b ::
      0 <= i < j < |MonthlySeconds(table, user)| && 0 <= a < |table| && 0 <= b < |table|
      && table[a].monthYear == MonthlySeconds(table, user)[i].key
      && table[b].monthYear == MonthlySeconds(table, user)[j].key
      ==> MonthBefore(table[a], table[b])
  {
    var s := MonthlySeconds(table, user);
    SeriesBuckets(table, user, ByMonth);
    forall i, j, a, b | 0 <= i < j < |s| && 0 <= a < |table| && 0 <= b < |table|
      && table[a].monthYear == s[i].key && table[b].monthYear == s[j].key
      ensures MonthBefore(table[a], table[b])
    {
      MonthOrder(table[a], table[b]);
    }
  }

  /** The weekly series runs in calendar order: the rows behind an earlier bucket started in an earlier week. */
  lemma WeeklyChronological(table: seq<Record>, user: string)
    requires Loaded(table)
    ensures forall i, j, a, b ::
      0 <= i < j < |WeeklySeconds(table, user)| && 0 <= a < |table| && 0 <= b < |table|
      && table[a].week == WeeklySeconds(table, user)[i].key
      && table[b].week == WeeklySeconds(table, user)[j].key
      ==> WeekNumber(table[a].row.startTime.date) < WeekNumber(table[b].row.startTime.date)
  {
    var s := WeeklySeconds(table, user);
    SeriesBuckets(table, user, ByWeek);
    forall i, j, a, b | 0 <= i < j < |s| && 0 <= a < |table| && 0 <= b < |table|
      && table[a].week == s[i].key && table[b].week == s[j].key
      ensures WeekNumber(table[a].row.startTime.date) < WeekNumber(table[b].row.startTime.date)
    {
      WeekOrder(table[a], table[b]);
    }
  }

  /** Every bucket of the weekday series is named by one of the seven names of `weekday_order`. */
  lemma WeekdayNames(table: seq<Record>, user: string)
    requires Loaded(table)
    ensures forall i :: 0 <= i < |WeekdaySeconds(table, user)| ==> WeekdaySeconds(table, user)[i].key in WeekdayOrder
  {
    var s := WeekdaySeconds(table, user);
    forall i | 0 <= i < |s| ensures s[i].key in WeekdayOrder {
      var r := BucketSource(table, user, ByWeekday, i);
      WeekdayIsNamed(table[r]);
    }
  }

  // ---------------------------------------------------------------------------
  // Weekday shares (app.py:42-45)
  // ---------------------------------------------------------------------------

  /** `seconds / 3600`, exactly. */
  function Hours(seconds: int): real {
    seconds as real / 3600.0
  }

  /** A percentage as floating-point division leaves it: a number, `nan` for 0/0, or a signed infinity for x/0. */
  datatype Share = Percent(value: real) | NaN | Infinity(positive: bool)

  datatype ShareBucket = ShareBucket(key: string, share: Share)

  /** `hours / total * 100`. */
  function Percentage(hours: real, total: real): Share {
    if total != 0.0 then Percent(hours / total * 100.0)
    else if hours == 0.0 then NaN
    else Infinity(hours > 0.0)
  }

  /** `x` as a percentage of `total`, exactly. */
  function PercentOf(x: int, total: int): real
    requires total != 0
  {
    100.0 * x as real / total as real
  }

  /** `weekday_data_hours_weekday.sum()`: the hours of the series added up bucket by bucket. */
  function SumHours(s: seq<Bucket>): real {
    if |s| == 0 then 0.0 else Hours(s[0].seconds) + SumHours(s[1..])
  }

  /** Each bucket's hours as a percentage of `total`, keys unchanged. */
  function Shares(s: seq<Bucket>, total: real): (r: seq<ShareBucket>)
    ensures |r| == |s|
    ensures forall i :: 0 <= i < |s| ==> r[i].key == s[i].key && r[i].share == Percentage(Hours(s[i].seconds), total)
  {
    if |s| == 0 then [] else [ShareBucket(s[0].key, Percentage(Hours(s[0].seconds), total))] + Shares(s[1..], total)
  }

  /** `weekday_data_fraction` before `.round(2)`. */
  function WeekdayShares(table: seq<Record>, user: string): seq<ShareBucket> {
    var s := WeekdaySeconds(table, user);
    Shares(s, SumHours(s))
  }

  /** The percentages of the entries that have one, added up. */
  function PercentSum(r: seq<ShareBucket>): real {
    if |r| == 0 then 0.0 else (if r[0].share.Percent? then r[0].share.value else 0.0) + PercentSum(r[1..])
  }

  lemma {:induction false} SumHoursTotal(s: seq<Bucket>)
    ensures SumHours(s) == Hours(TotalSeconds(s))
    decreases |s|
  {
    if |s| > 0 {
      SumHoursTotal(s[1..]);
    }
  }

  lemma {:induction false} SharesAddUp(s: seq<Bucket>, total: real)
    requires total != 0.0
    ensures PercentSum(Shares(s, total)) == SumHours(s) / total * 100.0
    decreases |s|
  {
    if |s| > 0 {
      var r := Shares(s, total);
      assert r[1..] == Shares(s[1..], total);
      SharesAddUp(s[1..], total);
      var h, rest := Hours(s[0].seconds), SumHours(s[1..]);
      assert h / total * 100.0 + rest / total * 100.0 == (h + rest) / total * 100.0;
    }
  }

  /** Hours over hours is seconds over seconds. */
  lemma HoursRatio(x: int, u: int)
    requires u != 0
    ensures Hours(x) / Hours(u) * 100.0 == PercentOf(x, u)
  {
    var q := x as real / u as real;
    assert x as real == q * u as real;
    assert Hours(x) == q * Hours(u);
  }

  lemma WholeRatio(h: real)
    requires h != 0.0
    ensures h / h * 100.0 == 100.0
  {
  }

  /** The share of each bucket of a series with a non-zero total: its seconds over the total seconds. */
  lemma SharesOfTotal(s: seq<Bucket>)
    requires TotalSeconds(s) != 0
    ensures forall i :: 0 <= i < |s| ==>
      Shares(s, SumHours(s))[i].share == Percent(PercentOf(s[i].seconds, TotalSeconds(s)))
  {
    var u := TotalSeconds(s);
    SumHoursTotal(s);
    forall i | 0 <= i < |s| ensures Hours(s[i].seconds) / Hours(u) * 100.0 == PercentOf(s[i].seconds, u) {
      HoursRatio(s[i].seconds, u);
    }
  }

  /** The shares of a series with a non-zero total add up to 100. */
  lemma SharesAddToHundred(s: seq<Bucket>)
    requires TotalSeconds(s) != 0
    ensures PercentSum(Shares(s, SumHours(s))) == 100.0
  {
    SumHoursTotal(s);
    var h := Hours(TotalSeconds(s));
    SharesAddUp(s, h);
    WholeRatio(h);
  }

  /**
   * For a user who watched a non-zero total, each weekday's share is 100 times that
   * weekday's seconds over the user's total seconds, and the shares add up to 100.
   */
  lemma WeekdaySharesSum(table: seq<Record>, user: string)
    requires UserSeconds(table, user) != 0
    ensures |WeekdayShares(table, user)| == |WeekdaySeconds(table, user)|
    ensures forall i :: 0 <= i < |WeekdayShares(table, user)| ==>
      && WeekdayShares(table, user)[i].key == WeekdaySeconds(table, user)[i].key
      && WeekdayShares(table, user)[i].share ==
        Percent(PercentOf(SecondsWhere(table, user, ByWeekday, WeekdayShares(table, user)[i].key), UserSeconds(table, user)))
    ensures PercentSum(WeekdayShares(table, user)) == 100.0
  {
    var s := WeekdaySeconds(table, user);
    var u := UserSeconds(table, user);
    SeriesBuckets(table, user, ByWeekday);
    SharesOfTotal(s);
    SharesAddToHundred(s);
    var r := WeekdayShares(table, user);
    forall i | 0 <= i < |r|
      ensures r[i].share == Percent(PercentOf(SecondsWhere(table, user, ByWeekday, r[i].key), u))
    {
      assert r[i].key == s[i].key && s[i].seconds == SecondsWhere(table, user, ByWeekday, s[i].key);
    }
  }

  /**
   * For a user whose total is zero there is no percentage: a weekday with no seconds gets
   * `nan`, one with seconds (negative durations elsewhere cancelling them) an infinity.
   */
  lemma WeekdaySharesUndefined(table: seq<Record>, user: string)
    requires UserSeconds(table, user) == 0
    ensures |WeekdayShares(table, user)| == |WeekdaySeconds(table, user)|
    ensures forall i :: 0 <= i < |WeekdayShares(table, user)| ==>
      var seconds := SecondsWhere(table, user, ByWeekday, WeekdayShares(table, user)[i].key);
      WeekdayShares(table, user)[i].share == if seconds == 0 then NaN else Infinity(seconds > 0)
  {
    var s := WeekdaySeconds(table, user);
    SeriesBuckets(table, user, ByWeekday);
    SumHoursTotal(s);
  }

  // ---------------------------------------------------------------------------
  // Monthly comparison (app.py:53)
  // ---------------------------------------------------------------------------

  /** Every row's `period` column with its seconds, all profiles together, in row order. */
  function Column(table: seq<Record>, period: Period): (c: seq<Bucket>)
    ensures |c| == |table|
    ensures forall i :: 0 <= i < |table| ==> c[i] == Bucket(Key(table[i], period), table[i].seconds)
  {
    seq(|table|, i requires 0 <= i < |table| => Bucket(Key(table[i], period), table[i].seconds))
  }

  /** The `Profile Name` column with the seconds of each row. */
  function ProfileColumn(table: seq<Record>): (c: seq<Bucket>)
    ensures |c| == |table|
    ensures forall i :: 0 <= i < |table| ==> c[i] == Bucket(table[i].row.profileName, table[i].seconds)
  {
    seq(|table|, i requires 0 <= i < |table| => Bucket(table[i].row.profileName, table[i].seconds))
  }

  /** `fillna(0)`: a missing (month, profile) pair counts as no seconds. */
  function FillZero(v: Option<int>): int {
    match v
    case Some(x) => x
    case None => 0
  }

  /** The rows of `month`, all profiles together, reduced to `Profile Name` and `Duration (s)`, in row order. */
  function MonthRows(table: seq<Record>, month: string): seq<Bucket>
    decreases |table|
  {
    if |table| == 0 then []
    else
      (if table[0].monthYear == month then [Bucket(table[0].row.profileName, table[0].seconds)] else [])
      + MonthRows(table[1..], month)
  }

  /**
   * The entries of the group-by on the pair (`Month-Year`, `Profile Name`) whose first
   * level is `month`: one sum per profile with rows in that month, profiles sorted.
   */
  function MonthGroup(table: seq<Record>, month: string): seq<Bucket> {
    GroupSum(MonthRows(table, month))
  }

  /** A month-by-profile table: one row per month, one column per profile, seconds in the cells. */
  datatype Comparison = Comparison(months: seq<string>, users: seq<string>, seconds: seq<seq<int>>)

  /**
   * The pivot of the monthly chart, in seconds: the (month, profile) sums spread out as a
   * table whose index is every month any profile watched in and whose columns are all the
   * profiles, both sorted as the group-by sorts them; a pair with no rows is 0.
   */
  function MonthlyComparison(table: seq<Record>): (c: Comparison)
    ensures |c.seconds| == |c.months|
    ensures forall i :: 0 <= i < |c.months| ==> |c.seconds[i]| == |c.users|
  {
    var months := Keys(GroupSum(Column(table, ByMonth)));
    var users := Keys(GroupSum(ProfileColumn(table)));
    Comparison(months, users, seq(|months|, i requires 0 <= i < |months| =>
      seq(|users|, j requires 0 <= j < |users| => FillZero(Lookup(MonthGroup(table, months[i]), users[j])))))
  }

  /** The month's entries carry, profile by profile, the seconds `SecondsWhere` counts. */
  lemma {:induction false} MonthRowsSeconds(table: seq<Record>, month: string)
    ensures forall user :: SecondsOf(MonthRows(table, month), user) == SecondsWhere(table, user, ByMonth, month)
    decreases |table|
  {
    if |table| > 0 {
      var head := if table[0].monthYear == month then [Bucket(table[0].row.profileName, table[0].seconds)] else [];
      var rest := MonthRows(table[1..], month);
      assert MonthRows(table, month) == head + rest;
      MonthRowsSeconds(table[1..], month);
      assert head == [] || head[1..] == [];
      forall user ensures SecondsOf(head + rest, user) == SecondsWhere(table, user, ByMonth, month) {
        SecondsOfAppend(head, rest, user);
      }
    }
  }

  /** The month's entries carry exactly the profiles with a row in that month. */
  lemma {:induction false} MonthRowsKeys(table: seq<Record>, month: string)
    ensures forall user :: user in KeySet(MonthRows(table, month)) <==> Watched(table, user, ByMonth, month)
    decreases |table|
  {
    if |table| > 0 {
      var head := if table[0].monthYear == month then [Bucket(table[0].row.profileName, table[0].seconds)] else [];
      var rest := MonthRows(table[1..], month);
      assert MonthRows(table, month) == head + rest;
      MonthRowsKeys(table[1..], month);
      KeySetAppend(head, rest);
      assert KeySet(head) == if head == [] then {} else {head[0].key};
      forall user ensures user in KeySet(head + rest) <==> Watched(table, user, ByMonth, month) {
        WatchedCons(table, user, ByMonth, month);
      }
    } else {
      assert KeySet([]) == {};
    }
  }

  /** The pair (`month`, `user`) of the group-by: the user's seconds in that month, or no entry at all. */
  lemma MonthGroupLookup(table: seq<Record>, month: string, user: string)
    ensures Lookup(MonthGroup(table, month), user) ==
      if Watched(table, user, ByMonth, month) then Some(SecondsWhere(table, user, ByMonth, month)) else None
  {
    MonthRowsSeconds(table, month);
    MonthRowsKeys(table, month);
    LookupAscending(GroupSum(MonthRows(table, month)), user);
  }

  /** Strictly ascending strings. */
  predicate Sorted(xs: seq<string>) {
    forall i, j :: 0 <= i < j < |xs| ==> LexLess(xs[i], xs[j])
  }

  lemma ColumnKeys(table: seq<Record>, period: Period)
    ensures forall key :: key in KeySet(Column(table, period)) <==> exists r :: 0 <= r < |table| && Key(table[r], period) == key
  {
    var c := Column(table, period);
    forall key | key in KeySet(c) ensures exists r :: 0 <= r < |table| && Key(table[r], period) == key {
      var r :| 0 <= r < |c| && c[r].key == key;
    }
    forall key | exists r :: 0 <= r < |table| && Key(table[r], period) == key ensures key in KeySet(c) {
      var r :| 0 <= r < |table| && Key(table[r], period) == key;
      assert c[r].key == key;
    }
  }

  lemma ProfileColumnKeys(table: seq<Record>)
    ensures forall u :: u in KeySet(ProfileColumn(table)) <==> exists r :: 0 <= r < |table| && table[r].row.profileName == u
  {
    var c := ProfileColumn(table);
    forall u | u in KeySet(c) ensures exists r :: 0 <= r < |table| && table[r].row.profileName == u {
      var r :| 0 <= r < |c| && c[r].key == u;
    }
    forall u | exists r :: 0 <= r < |table| && table[r].row.profileName == u ensures u in KeySet(c) {
      var r :| 0 <= r < |table| && table[r].row.profileName == u;
      assert c[r].key == u;
    }
  }

  /**
   * The comparison's axes: its rows are the months in which any profile watched, each once,
   * in ascending order; its columns are all the profiles of the table, each once, sorted.
   */
  lemma ComparisonAxes(table: seq<Record>)
    ensures Sorted(MonthlyComparison(table).months)
    ensures forall key :: key in MonthlyComparison(table).months <==> exists r :: 0 <= r < |table| && table[r].monthYear == key
    ensures Sorted(MonthlyComparison(table).users)
    ensures forall u :: u in MonthlyComparison(table).users <==> exists r :: 0 <= r < |table| && table[r].row.profileName == u
  {
    AscendingKeys(GroupSum(Column(table, ByMonth)));
    AscendingKeys(GroupSum(ProfileColumn(table)));
    ColumnKeys(table, ByMonth);
    ProfileColumnKeys(table);
  }

  /**
   * A cell of the comparison holds that profile's seconds in that month, and 0 when the
   * profile has no row in that month.
   */
  lemma ComparisonCells(table: seq<Record>)
    ensures var c := MonthlyComparison(table);
      forall i, j :: 0 <= i < |c.months| && 0 <= j < |c.users| ==>
        (c.seconds[i][j] == SecondsWhere(table, c.users[j], ByMonth, c.months[i]))
        && (!Watched(table, c.users[j], ByMonth, c.months[i]) ==> c.seconds[i][j] == 0)
  {
    var c := MonthlyComparison(table);
    forall i, j | 0 <= i < |c.months| && 0 <= j < |c.users|
      ensures c.seconds[i][j] == SecondsWhere(table, c.users[j], ByMonth, c.months[i])
      ensures !Watched(table, c.users[j], ByMonth, c.months[i]) ==> c.seconds[i][j] == 0
    {
      ComparisonCell(table, c.months, c.users, i, j);
    }
  }

  /** One cell of the comparison, for the axes `months` and `users` the comparison has. */
  lemma ComparisonCell(table: seq<Record>, months: seq<string>, users: seq<string>, i: nat, j: nat)
    requires months == MonthlyComparison(table).months && users == MonthlyComparison(table).users
    requires i < |months| && j < |users|
    ensures MonthlyComparison(table).seconds[i][j] == SecondsWhere(table, users[j], ByMonth, months[i])
    ensures !Watched(table, users[j], ByMonth, months[i]) ==> MonthlyComparison(table).seconds[i][j] == 0
  {
    var cell := MonthlyComparison(table).seconds[i][j];
    assert cell == FillZero(Lookup(MonthGroup(table, months[i]), users[j]));
    MonthGroupLookup(table, months[i], users[j]);
    if !Watched(table, users[j], ByMonth, months[i]) {
      UnwatchedIsZero(table, users[j], ByMonth, months[i]);
    }
  }

  /**
   * Where a profile has data, its column of the comparison agrees with its monthly series:
   * every bucket's month is a row of the comparison, and the cell there holds the bucket's seconds.
   */
  lemma ComparisonAgrees(table: seq<Record>, j: nat)
    requires j < |MonthlyComparison(table).users|
    ensures var c := MonthlyComparison(table);
      var s := MonthlySeconds(table, c.users[j]);
      && (forall k :: 0 <= k < |s| ==> s[k].key in c.months)
      && (forall i, k :: 0 <= i < |c.months| && 0 <= k < |s| && c.months[i] == s[k].key ==> c.seconds[i][j] == s[k].seconds)
  {
    var c := MonthlyComparison(table);
    var s := MonthlySeconds(table, c.users[j]);
    ComparisonAxes(table);
    ComparisonCells(table);
    SeriesBuckets(table, c.users[j], ByMonth);
    forall k | 0 <= k < |s| ensures s[k].key in c.months {
      var r := BucketSource(table, c.users[j], ByMonth, k);
    }
  }

  /** Pairwise distinct strings. */
  predicate Distinct(xs: seq<string>) {
    forall i, j :: 0 <= i < j < |xs| ==> xs[i] != xs[j]
  }

  lemma SortedDistinct(xs: seq<string>)
    requires Sorted(xs)
    ensures Distinct(xs)
  {
    forall i, j | 0 <= i < j < |xs| ensures xs[i] != xs[j] {
      LexLessIrreflexive(xs[i]);
    }
  }

  /** Column `j` of `cells` added up. */
  function ColumnSum(cells: seq<seq<int>>, j: nat): int
    requires forall i :: 0 <= i < |cells| ==> j < |cells[i]|
  {
    if |cells| == 0 then 0 else cells[0][j] + ColumnSum(cells[1..], j)
  }

  /** The seconds of `user` in each of the periods `keys`, added up. */
  function SumOver(table: seq<Record>, user: string, period: Period, keys: seq<string>): int {
    if |keys| == 0 then 0 else SecondsWhere(table, user, period, keys[0]) + SumOver(table, user, period, keys[1..])
  }

  lemma {:induction false} ColumnSumOver(cells: seq<seq<int>>, j: nat, table: seq<Record>, user: string, period: Period, keys: seq<string>)
    requires |cells| == |keys|
    requires forall i :: 0 <= i < |cells| ==> j < |cells[i]| && cells[i][j] == SecondsWhere(table, user, period, keys[i])
    ensures ColumnSum(cells, j) == SumOver(table, user, period, keys)
    decreases |keys|
  {
    if |keys| > 0 {
      ColumnSumOver(cells[1..], j, table, user, period, keys[1..]);
    }
  }

  lemma {:induction false} SumOverNothing(user: string, period: Period, keys: seq<string>)
    ensures SumOver([], user, period, keys) == 0
    decreases |keys|
  {
    if |keys| > 0 {
      SumOverNothing(user, period, keys[1..]);
    }
  }

  /** Over distinct periods, the first row counts once if its period is among them, else not at all. */
  lemma {:induction false} SumOverCons(table: seq<Record>, user: string, period: Period, keys: seq<string>)
    requires |table| > 0 && Distinct(keys)
    ensures SumOver(table, user, period, keys) ==
      (if table[0].row.profileName == user && Key(table[0], period) in keys then table[0].seconds else 0)
      + SumOver(table[1..], user, period, keys)
    decreases |keys|
  {
    if |keys| > 0 {
      var rest := keys[1..];
      assert Distinct(rest) by {
        forall i, j | 0 <= i < j < |rest| ensures rest[i] != rest[j] {
          assert rest[i] == keys[i + 1] && rest[j] == keys[j + 1];
        }
      }
      SumOverCons(table, user, period, rest);
      assert Key(table[0], period) in keys <==> Key(table[0], period) == keys[0] || Key(table[0], period) in rest;
      assert keys[0] !in rest by {
        forall i | 0 <= i < |rest| ensures rest[i] != keys[0] {
          assert rest[i] == keys[i + 1];
        }
      }
    }
  }

  /** Summing a user's seconds over distinct periods that cover all of the user's rows gives the user's total. */
  lemma {:induction false} SumOverAll(table: seq<Record>, user: string, period: Period, keys: seq<string>)
    requires Distinct(keys)
    requires forall r :: 0 <= r < |table| && table[r].row.profileName == user ==> Key(table[r], period) in keys
    ensures SumOver(table, user, period, keys) == UserSeconds(table, user)
    decreases |table|
  {
    if |table| == 0 {
      SumOverNothing(user, period, keys);
    } else {
      var rest := table[1..];
      forall r | 0 <= r < |rest| && rest[r].row.profileName == user ensures Key(rest[r], period) in keys {
        assert rest[r] == table[r + 1];
      }
      SumOverAll(rest, user, period, keys);
      SumOverCons(table, user, period, keys);
    }
  }

  /** A column of the comparison adds up to everything that profile watched. */
  lemma ComparisonColumnTotal(table: seq<Record>, j: nat)
    requires j < |MonthlyComparison(table).users|
    ensures forall i :: 0 <= i < |MonthlyComparison(table).seconds| ==> j < |MonthlyComparison(table).seconds[i]|
    ensures ColumnSum(MonthlyComparison(table).seconds, j) == UserSeconds(table, MonthlyComparison(table).users[j])
  {
    var c := MonthlyComparison(table);
    var user := c.users[j];
    ComparisonAxes(table);
    ComparisonCells(table);
    SortedDistinct(c.months);
    forall r | 0 <= r < |table| && table[r].row.profileName == user ensures Key(table[r], ByMonth) in c.months {
      assert table[r].monthYear == Key(table[r], ByMonth);
    }
    ColumnSumOver(c.seconds, j, table, user, ByMonth, c.months);
    SumOverAll(table, user, ByMonth, c.months);
  }

  // ---------------------------------------------------------------------------
  // The profiles the page walks through (app.py:90)
  // ---------------------------------------------------------------------------

  /** The `Profile Name` column. */
  function Profiles(table: seq<Record>): (p: seq<string>)
    ensures |p| == |table|
    ensures forall i :: 0 <= i < |table| ==> p[i] == table[i].row.profileName
  {
    seq(|table|, i requires 0 <= i < |table| => table[i].row.profileName)
  }

  /** `unique()`: each value once, kept where it first appears. */
  function Unique(xs: seq<string>): (u: seq<string>)
    ensures Distinct(u)
    ensures forall x :: x in u <==> x in xs
    decreases |xs|
  {
    if |xs| == 0 then []
    else
      var init := Unique(xs[..|xs| - 1]);
      var x := xs[|xs| - 1];
      assert xs == xs[..|xs| - 1] + [x];
      if x in init then init else init + [x]
  }

  /** Where `x` first appears in `xs`. */
  function FirstIndex(xs: seq<string>, x: string): (k: nat)
    requires x in xs
    ensures k < |xs| && xs[k] == x
    ensures forall i :: 0 <= i < k ==> xs[i] != x
  {
    if xs[0] == x then 0 else 1 + FirstIndex(xs[1..], x)
  }

  lemma FirstIndexPrefix(xs: seq<string>, n: nat, x: string)
    requires n <= |xs| && x in xs[..n]
    ensures FirstIndex(xs, x) == FirstIndex(xs[..n], x)
  {
    var k, l := FirstIndex(xs, x), FirstIndex(xs[..n], x);
    assert xs[l] == x;
  }

  /** `unique()` keeps the order in which the values first appear. */
  lemma {:induction false} UniqueOrder(xs: seq<string>)
    ensures forall i, j :: 0 <= i < j < |Unique(xs)| ==> FirstIndex(xs, Unique(xs)[i]) < FirstIndex(xs, Unique(xs)[j])
    decreases |xs|
  {
    if |xs| > 0 {
      var n := |xs| - 1;
      var init, x := Unique(xs[..n]), xs[n];
      var u := Unique(xs);
      UniqueOrder(xs[..n]);
      forall i | 0 <= i < |init| ensures FirstIndex(xs, init[i]) == FirstIndex(xs[..n], init[i]) {
        FirstIndexPrefix(xs, n, init[i]);
      }
      if x !in init {
        assert u == init + [x];
        assert x !in xs[..n];
        assert FirstIndex(xs, x) == n;
      }
    }
  }

  /** The profiles in order of first appearance. */
  function Users(table: seq<Record>): seq<string> {
    Unique(Profiles(table))
  }

  lemma {:induction false} DistinctSize(xs: seq<string>)
    requires Distinct(xs)
    ensures |set x | x in xs| == |xs|
    decreases |xs|
  {
    if |xs| > 0 {
      var rest := xs[1..];
      assert Distinct(rest) by {
        forall i, j | 0 <= i < j < |rest| ensures rest[i] != rest[j] {
          assert rest[i] == xs[i + 1] && rest[j] == xs[j + 1];
        }
      }
      DistinctSize(rest);
      assert xs[0] !in rest by {
        forall i | 0 <= i < |rest| ensures rest[i] != xs[0] {
          assert rest[i] == xs[i + 1];
        }
      }
      assert (set x | x in xs) == {xs[0]} + (set x | x in rest) by {
        assert xs == [xs[0]] + rest;
      }
    }
  }

  /** Where the profile of row `r` stands in `Users`. */
  lemma UserOfRow(table: seq<Record>, r: nat) returns (i: nat)
    requires r < |table|
    ensures i < |Users(table)| && Users(table)[i] == table[r].row.profileName
  {
    var p := Profiles(table);
    assert p[r] in p;
    i :| 0 <= i < |Users(table)| && Users(table)[i] == p[r];
  }

  /** Distinct sequences with the same members are equally long. */
  lemma SameMembersSameSize(xs: seq<string>, ys: seq<string>)
    requires Distinct(xs) && Distinct(ys)
    requires forall x :: x in xs <==> x in ys
    ensures |xs| == |ys|
  {
    DistinctSize(xs);
    DistinctSize(ys);
    assert (set x | x in xs) == (set y | y in ys);
  }

  lemma UsersMembers(table: seq<Record>)
    ensures forall u :: u in Users(table) <==> exists r :: 0 <= r < |table| && table[r].row.profileName == u
  {
    var p := Profiles(table);
    forall u ensures u in p <==> exists r :: 0 <= r < |table| && table[r].row.profileName == u {
      if u in p {
        var r :| 0 <= r < |p| && p[r] == u;
      }
      if exists r :: 0 <= r < |table| && table[r].row.profileName == u {
        var r :| 0 <= r < |table| && table[r].row.profileName == u;
        assert p[r] == u;
      }
    }
  }

  /**
   * The profiles the page walks through are exactly the comparison's columns, each once:
   * the same names, as many, in order of first appearance rather than sorted.
   */
  lemma UsersAreColumns(table: seq<Record>)
    ensures Distinct(Users(table))
    ensures forall u :: u in Users(table) <==> u in MonthlyComparison(table).users
    ensures |Users(table)| == |MonthlyComparison(table).users|
  {
    var columns := MonthlyComparison(table).users;
    ComparisonAxes(table);
    SortedDistinct(columns);
    UsersMembers(table);
    SameMembersSameSize(Users(table), columns);
  }

  /** The order of `Users`: by where each profile's first row stands. */
  lemma UsersInFirstAppearanceOrder(table: seq<Record>)
    ensures forall i, j :: 0 <= i < j < |Users(table)| ==>
      FirstIndex(Profiles(table), Users(table)[i]) < FirstIndex(Profiles(table), Users(table)[j])
  {
    UniqueOrder(Profiles(table));
  }

  // ---------------------------------------------------------------------------
  // The analysis part of `main` (app.py:89-101)
  // ---------------------------------------------------------------------------

  /** The numbers behind one profile's section: monthly and weekly seconds, and weekday shares. */
  datatype UserReport = UserReport(user: string, monthly: seq<Bucket>, weekly: seq<Bucket>, weekdayShares: seq<ShareBucket>)

  function ReportFor(table: seq<Record>, user: string): UserReport {
    UserReport(user, MonthlySeconds(table, user), WeeklySeconds(table, user), WeekdayShares(table, user))
  }

  /** `for user in users:` the numbers of one section per profile, in the order given. */
  method Sections(table: seq<Record>, users: seq<string>) returns (reports: seq<UserReport>)
    ensures |reports| == |users|
    ensures forall k :: 0 <= k < |users| ==> reports[k] == ReportFor(table, users[k])
  {
    reports := [];
    for i := 0 to |users|
      invariant |reports| == i
      invariant forall k :: 0 <= k < i ==> reports[k] == ReportFor(table, users[k])
    {
      var report := ReportFor(table, users[i]);
      reports := reports + [report];
    }
  }

  /**
   * One section per profile, in order of first appearance, then the comparison: every
   * profile of the table gets exactly one section.
   */
  method Analyse(table: seq<Record>) returns (reports: seq<UserReport>, comparison: Comparison)
    ensures |reports| == |Users(table)|
    ensures forall i :: 0 <= i < |reports| ==> reports[i] == ReportFor(table, Users(table)[i])
    ensures forall i, j :: 0 <= i < j < |reports| ==> reports[i].user != reports[j].user
    ensures forall r :: 0 <= r < |table| ==> exists i :: 0 <= i < |reports| && reports[i].user == table[r].row.profileName
    ensures comparison == MonthlyComparison(table)
  {
    var users := Users(table);
    reports := Sections(table, users);
    forall r | 0 <= r < |table| ensures exists i :: 0 <= i < |reports| && reports[i].user == table[r].row.profileName {
      var i := UserOfRow(table, r);
      assert reports[i].user == users[i];
    }
    comparison := MonthlyComparison(table);
  }
}
