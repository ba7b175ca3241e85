/**
 * `groupby(key)['Duration (s)'].sum()` as an explicit fold: every row adds its seconds
 * into a series of (key, seconds) buckets kept in ascending key order.
 */
module Grouping {
  import opened Outcomes
  import opened Text

  /** A key with a number of seconds: one row's key and duration, or one bucket's sum. */
  datatype Bucket = Bucket(key: string, seconds: int)

  /** Keys strictly ascending in Python's str order, hence also pairwise distinct. */
  predicate Ascending(s: seq<Bucket>) {
    forall i, j :: 0 <= i < j < |s| ==> LexLess(s[i].key, s[j].key)
  }

  function KeySet(s: seq<Bucket>): set<string> {
    set i | 0 <= i < |s| :: s[i].key
  }

  lemma KeySetCons(s: seq<Bucket>)
    requires |s| > 0
    ensures KeySet(s) == {s[0].key} + KeySet(s[1..])
  {
    assert forall i :: 0 < i < |s| ==> s[i] == s[1..][i - 1];
  }

  lemma KeySetAppend(a: seq<Bucket>, b: seq<Bucket>)
    ensures KeySet(a + b) == KeySet(a) + KeySet(b)
  {
    var c := a + b;
    forall key | key in KeySet(c) ensures key in KeySet(a) + KeySet(b) {
      var i :| 0 <= i < |c| && c[i].key == key;
      if i >= |a| {
        assert b[i - |a|] == c[i];
      }
    }
    forall key | key in KeySet(a) + KeySet(b) ensures key in KeySet(c) {
      if key in KeySet(a) {
        var i :| 0 <= i < |a| && a[i].key == key;
        assert c[i] == a[i];
      } else {
        var i :| 0 <= i < |b| && b[i].key == key;
        assert c[|a| + i] == b[i];
      }
    }
  }

  /** The keys in order: the index of the grouped series. */
  function Keys(s: seq<Bucket>): (keys: seq<string>)
    ensures |keys| == |s| && forall i :: 0 <= i < |s| ==> keys[i] == s[i].key
  {
    if |s| == 0 then [] else [s[0].key] + Keys(s[1..])
  }

  /** The seconds of the entries that carry `key`, 0 when none does. */
  function SecondsOf(s: seq<Bucket>, key: string): int {
    if |s| == 0 then 0
    else (if s[0].key == key then s[0].seconds else 0) + SecondsOf(s[1..], key)
  }

  function TotalSeconds(s: seq<Bucket>): int {
    if |s| == 0 then 0 else s[0].seconds + TotalSeconds(s[1..])
  }

  lemma {:induction false} SecondsOfAppend(a: seq<Bucket>, b: seq<Bucket>, key: string)
    ensures SecondsOf(a + b, key) == SecondsOf(a, key) + SecondsOf(b, key)
    decreases |a|
  {
    if |a| == 0 {
      assert a + b == b;
    } else {
      assert (a + b)[1..] == a[1..] + b;
      SecondsOfAppend(a[1..], b, key);
    }
  }

  lemma {:induction false} TotalSecondsAppend(a: seq<Bucket>, b: seq<Bucket>)
    ensures TotalSeconds(a + b) == TotalSeconds(a) + TotalSeconds(b)
    decreases |a|
  {
    if |a| == 0 {
      assert a + b == b;
    } else {
      assert (a + b)[1..] == a[1..] + b;
      TotalSecondsAppend(a[1..], b);
    }
  }

  /** Every key of `s` sorts after `k`. */
  predicate AllAfter(k: string, s: seq<Bucket>) {
    forall j :: 0 <= j < |s| ==> LexLess(k, s[j].key)
  }

  lemma ConsAscending(b: Bucket, s: seq<Bucket>)
    requires Ascending(s) && AllAfter(b.key, s)
    ensures Ascending([b] + s)
  {
    var r := [b] + s;
    forall i, j | 0 <= i < j < |r| ensures LexLess(r[i].key, r[j].key) {
      assert r[j] == s[j - 1];
      if i > 0 {
        assert r[i] == s[i - 1];
      }
    }
  }

  lemma AscendingTail(s: seq<Bucket>)
    requires Ascending(s) && |s| > 0
    ensures Ascending(s[1..]) && AllAfter(s[0].key, s[1..])
  {
    var rest := s[1..];
    forall k, l | 0 <= k < l < |rest| ensures LexLess(rest[k].key, rest[l].key) {
      assert rest[k] == s[k + 1] && rest[l] == s[l + 1];
    }
    forall j | 0 <= j < |rest| ensures LexLess(s[0].key, rest[j].key) {
      assert rest[j] == s[j + 1];
    }
  }

  /** A series whose keys come from `s` and one key `x`, all after `k`, is all after `k`. */
  lemma AllAfterKeys(k: string, s: seq<Bucket>, x: string, t: seq<Bucket>)
    requires AllAfter(k, s) && LexLess(k, x) && KeySet(t) <= KeySet(s) + {x}
    ensures AllAfter(k, t)
  {
    forall j | 0 <= j < |t| ensures LexLess(k, t[j].key) {
      assert t[j].key in KeySet(t);
      if t[j].key != x {
        var i :| 0 <= i < |s| && s[i].key == t[j].key;
      }
    }
  }

  /** Adding one row's seconds into the series. */
  function Accumulate(s: seq<Bucket>, x: Bucket): (r: seq<Bucket>)
    requires Ascending(s)
    ensures Ascending(r)
    ensures KeySet(r) == KeySet(s) + {x.key}
    ensures forall key :: SecondsOf(r, key) == SecondsOf(s, key) + (if key == x.key then x.seconds else 0)
    ensures TotalSeconds(r) == TotalSeconds(s) + x.seconds
  {
    if |s| == 0 then
      assert KeySet([x]) == {x.key} by {
        KeySetCons([x]);
        assert [x][1..] == [];
      }
      [x]
    else
      AscendingTail(s);
      KeySetCons(s);
      if s[0].key == x.key then
        var r := [Bucket(x.key, s[0].seconds + x.seconds)] + s[1..];
        assert r[1..] == s[1..];
        ConsAscending(r[0], s[1..]);
        KeySetCons(r);
        r
      else if LexLess(x.key, s[0].key) then
        var r := [x] + s;
        assert r[1..] == s;
        forall j | 0 <= j < |s| ensures LexLess(x.key, s[j].key) {
          if j > 0 {
            LexLessTransitive(x.key, s[0].key, s[j].key);
          }
        }
        ConsAscending(x, s);
        KeySetCons(r);
        r
      else
        LexLessTotal(x.key, s[0].key);
        var rest := Accumulate(s[1..], x);
        var r := [s[0]] + rest;
        assert r[1..] == rest;
        AllAfterKeys(s[0].key, s[1..], x.key, rest);
        ConsAscending(s[0], rest);
        KeySetCons(r);
        r
  }

  /**
   * Group-and-sum: one bucket per distinct key, in ascending key order, holding
   * the seconds of exactly the rows with that key; the buckets add up to the rows.
   */
  function GroupSum(rows: seq<Bucket>): (r: seq<Bucket>)
    ensures Ascending(r)
    ensures KeySet(r) == KeySet(rows)
    ensures forall key :: SecondsOf(r, key) == SecondsOf(rows, key)
    ensures TotalSeconds(r) == TotalSeconds(rows)
  {
    if |rows| == 0 then []
    else
      var init, last := rows[..|rows| - 1], rows[|rows| - 1];
      assert rows == init + [last];
      var r := Accumulate(GroupSum(init), last);
      forall key ensures SecondsOf(r, key) == SecondsOf(rows, key) {
        SecondsOfAppend(init, [last], key);
        assert [last][1..] == [];
      }
      TotalSecondsAppend(init, [last]);
      r
  }

  /** In an ascending series, a bucket holds everything its key has. */
  lemma {:induction false} AscendingBucket(s: seq<Bucket>, i: nat)
    requires Ascending(s) && i < |s|
    ensures SecondsOf(s, s[i].key) == s[i].seconds
    decreases |s|
  {
    var rest := s[1..];
    assert Ascending(rest) by {
      forall k, l | 0 <= k < l < |rest| ensures LexLess(rest[k].key, rest[l].key) {
        assert rest[k] == s[k + 1] && rest[l] == s[l + 1];
      }
    }
    if i == 0 {
      forall k | 0 <= k < |rest| ensures rest[k].key != s[0].key {
        assert rest[k] == s[k + 1];
        LexLessIrreflexive(s[0].key);
      }
      NotInAscending(rest, s[0].key);
    } else {
      assert rest[i - 1] == s[i];
      AscendingBucket(rest, i - 1);
      LexLessIrreflexive(s[i].key);
    }
  }

  /** A key no entry carries holds nothing. */
  lemma {:induction false} NotInAscending(s: seq<Bucket>, key: string)
    requires forall i :: 0 <= i < |s| ==> s[i].key != key
    ensures SecondsOf(s, key) == 0
    decreases |s|
  {
    if |s| > 0 {
      NotInAscending(s[1..], key);
    }
  }

  /** Each bucket of a group-and-sum holds the seconds of exactly the rows with its key. */
  lemma GroupSumBucket(rows: seq<Bucket>, i: nat)
    requires i < |GroupSum(rows)|
    ensures GroupSum(rows)[i].seconds == SecondsOf(rows, GroupSum(rows)[i].key)
  {
    AscendingBucket(GroupSum(rows), i);
  }

  lemma {:induction false} AscendingKeys(s: seq<Bucket>)
    requires Ascending(s)
    ensures forall i, j :: 0 <= i < j < |Keys(s)| ==> LexLess(Keys(s)[i], Keys(s)[j])
    ensures forall key :: key in Keys(s) <==> key in KeySet(s)
  {
    var keys := Keys(s);
    forall key ensures key in keys <==> key in KeySet(s) {
      if key in keys {
        var i :| 0 <= i < |keys| && keys[i] == key;
        assert s[i].key == key;
      }
      if key in KeySet(s) {
        var i :| 0 <= i < |s| && s[i].key == key;
        assert keys[i] == key;
      }
    }
  }

  /** The bucket of `key`, if the series has one. */
  function Lookup(s: seq<Bucket>, key: string): (v: Option<int>)
    ensures v.Some? <==> key in KeySet(s)
  {
    if |s| == 0 then None
    else if s[0].key == key then Some(s[0].seconds)
    else
      KeySetCons(s);
      Lookup(s[1..], key)
  }

  /** In an ascending series the bucket found is the one named, with all its key's seconds. */
  lemma {:induction false} LookupAscending(s: seq<Bucket>, key: string)
    requires Ascending(s)
    ensures Lookup(s, key) == if key in KeySet(s) then Some(SecondsOf(s, key)) else None
    decreases |s|
  {
    if |s| > 0 {
      if s[0].key == key {
        AscendingBucket(s, 0);
      } else {
        var rest := s[1..];
        assert Ascending(rest) by {
          forall k, l | 0 <= k < l < |rest| ensures LexLess(rest[k].key, rest[l].key) {
            assert rest[k] == s[k + 1] && rest[l] == s[l + 1];
          }
        }
        LookupAscending(rest, key);
        KeySetCons(s);
      }
    }
  }
}
