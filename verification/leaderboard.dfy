/**
 * The ordering of Leaderboard.tsx: the rows sorted by the chosen column and
 * renumbered 1, 2, 3, ... in the new order.
 *
 * The sort is modelled as a stable insertion sort (the host's array sort is
 * stable) driven by `Before`, the order the source's comparator describes;
 * `Compare` is the comparator as written, and `BeforeAgreesWithCompare`
 * relates the two.
 */
module Leaderboard {
  import opened Wrappers
  import opened Types
  import App

  datatype SortKey = Marcz | FastestTime | Level

  /** The source's comparator: negative puts `a` first, positive puts `b` first. */
  function Compare(key: SortKey, a: LeaderboardEntry, b: LeaderboardEntry): real {
    match key
    case FastestTime =>
      if a.fastestTime.None? then 1.0
      else if b.fastestTime.None? then -1.0
      else a.fastestTime.value - b.fastestTime.value
    case Marcz => b.marcz - a.marcz
    case Level => (b.level - a.level) as real
  }

  /**
   * `a` may be listed before `b`: more $MARCZ, a higher level, or a faster
   * time, where a row with no time comes after every row with one.
   */
  predicate Before(key: SortKey, a: LeaderboardEntry, b: LeaderboardEntry) {
    match key
    case Marcz => a.marcz >= b.marcz
    case Level => a.level >= b.level
    case FastestTime =>
      b.fastestTime.None? || (a.fastestTime.Some? && a.fastestTime.value <= b.fastestTime.value)
  }

  /** Wherever the comparator is consistent, it asks for exactly the order `Before` describes. */
  lemma BeforeAgreesWithCompare(key: SortKey, a: LeaderboardEntry, b: LeaderboardEntry)
    requires !(key == FastestTime && a.fastestTime.None? && b.fastestTime.None?)
    ensures Before(key, a, b) <==> Compare(key, a, b) <= 0.0
    ensures Before(key, a, b) && Before(key, b, a) <==> Compare(key, a, b) == 0.0
  {
  }

  /** For two rows without a time the comparator asks for each to come after the other. */
  lemma CompareClashesOnTwoMissingTimes(a: LeaderboardEntry, b: LeaderboardEntry)
    requires a.fastestTime.None? && b.fastestTime.None?
    ensures Compare(FastestTime, a, b) > 0.0 && Compare(FastestTime, b, a) > 0.0
  {
  }

  /** Any two rows are ordered one way or the other. */
  lemma BeforeTotal(key: SortKey, a: LeaderboardEntry, b: LeaderboardEntry)
    ensures Before(key, a, b) || Before(key, b, a)
  {
  }

  lemma BeforeTransitive(key: SortKey, a: LeaderboardEntry, b: LeaderboardEntry, c: LeaderboardEntry)
    requires Before(key, a, b) && Before(key, b, c)
    ensures Before(key, a, c)
  {
  }

  predicate Sorted(key: SortKey, s: seq<LeaderboardEntry>) {
    forall i, j :: 0 <= i < j < |s| ==> Before(key, s[i], s[j])
  }

  /** `e` placed in front of the first row of `t` it may precede. */
  function Insert(key: SortKey, e: LeaderboardEntry, t: seq<LeaderboardEntry>): (r: seq<LeaderboardEntry>)
    ensures |r| == |t| + 1
    ensures multiset(r) == multiset(t) + multiset{e}
    decreases |t|
  {
    if |t| == 0 then [e]
    else if Before(key, e, t[0]) then [e] + t
    else
      assert t == [t[0]] + t[1..];
      [t[0]] + Insert(key, e, t[1..])
  }

  /** A row that may precede every row of a sorted list heads a sorted list. */
  lemma ConsSorted(key: SortKey, x: LeaderboardEntry, t: seq<LeaderboardEntry>)
    requires Sorted(key, t)
    requires forall k :: 0 <= k < |t| ==> Before(key, x, t[k])
    ensures Sorted(key, [x] + t)
  {
    var r := [x] + t;
    forall i, j | 0 <= i < j < |r|
      ensures Before(key, r[i], r[j])
    {
      assert r[j] == t[j - 1];
      if i > 0 {
        assert r[i] == t[i - 1];
      }
    }
  }

  lemma TailSorted(key: SortKey, t: seq<LeaderboardEntry>)
    requires Sorted(key, t) && |t| > 0
    ensures Sorted(key, t[1..])
  {
    var tail := t[1..];
    forall i, j | 0 <= i < j < |tail|
      ensures Before(key, tail[i], tail[j])
    {
      assert tail[i] == t[i + 1] && tail[j] == t[j + 1];
    }
  }

  /** Every row of `Insert(key, e, t)` is `e` or a row of `t`. */
  lemma InsertRows(key: SortKey, e: LeaderboardEntry, t: seq<LeaderboardEntry>, k: int)
    requires 0 <= k < |Insert(key, e, t)|
    ensures Insert(key, e, t)[k] == e || exists m :: 0 <= m < |t| && t[m] == Insert(key, e, t)[k]
  {
    var x := Insert(key, e, t)[k];
    assert x in multiset(Insert(key, e, t));
    if x != e {
      assert x in multiset(t);
      assert x in t;
    }
  }

  lemma {:induction false} InsertSorted(key: SortKey, e: LeaderboardEntry, t: seq<LeaderboardEntry>)
    requires Sorted(key, t)
    ensures Sorted(key, Insert(key, e, t))
    decreases |t|
  {
    if |t| == 0 {
    } else if Before(key, e, t[0]) {
      forall k | 0 <= k < |t|
        ensures Before(key, e, t[k])
      {
        if k > 0 {
          BeforeTransitive(key, e, t[0], t[k]);
        }
      }
      ConsSorted(key, e, t);
    } else {
      BeforeTotal(key, e, t[0]);
      var tail := t[1..];
      TailSorted(key, t);
      InsertSorted(key, e, tail);
      var rest := Insert(key, e, tail);
      forall k | 0 <= k < |rest|
        ensures Before(key, t[0], rest[k])
      {
        InsertRows(key, e, tail, k);
        if rest[k] != e {
          var m :| 0 <= m < |tail| && tail[m] == rest[k];
          assert tail[m] == t[m + 1];
        }
      }
      ConsSorted(key, t[0], rest);
      assert Insert(key, e, t) == [t[0]] + rest;
    }
  }

  /** Insertion sort: each row, from the last to the first, inserted into the sorted rest. */
  function Sort(key: SortKey, s: seq<LeaderboardEntry>): (r: seq<LeaderboardEntry>)
    ensures |r| == |s|
    ensures multiset(r) == multiset(s)
    decreases |s|
  {
    if |s| == 0 then []
    else
      assert s == [s[0]] + s[1..];
      Insert(key, s[0], Sort(key, s[1..]))
  }

  lemma {:induction false} SortSorted(key: SortKey, s: seq<LeaderboardEntry>)
    ensures Sorted(key, Sort(key, s))
    decreases |s|
  {
    if |s| > 0 {
      SortSorted(key, s[1..]);
      InsertSorted(key, s[0], Sort(key, s[1..]));
    }
  }

  /** A row with its rank forgotten: what the sort must keep. */
  function Unranked(e: LeaderboardEntry): LeaderboardEntry {
    e.(rank := 0)
  }

  /** The rows with their ranks forgotten. */
  function Strip(s: seq<LeaderboardEntry>): seq<LeaderboardEntry>
    decreases |s|
  {
    if |s| == 0 then [] else [Unranked(s[0])] + Strip(s[1..])
  }

  lemma {:induction false} StripAt(s: seq<LeaderboardEntry>)
    ensures |Strip(s)| == |s|
    ensures forall i :: 0 <= i < |s| ==> Strip(s)[i] == Unranked(s[i])
    decreases |s|
  {
    if |s| > 0 {
      StripAt(s[1..]);
      assert Strip(s) == [Unranked(s[0])] + Strip(s[1..]);
    }
  }

  /** The rows numbered 1, 2, 3, ... in their order. */
  function Ranked(s: seq<LeaderboardEntry>): (r: seq<LeaderboardEntry>)
    ensures |r| == |s|
    ensures forall i :: 0 <= i < |s| ==> r[i].rank == i + 1 && Unranked(r[i]) == Unranked(s[i])
  {
    seq(|s|, i requires 0 <= i < |s| => s[i].(rank := i + 1))
  }

  /** `sortedData`: the rows sorted by the chosen column, then ranked. */
  function SortedData(key: SortKey, data: seq<LeaderboardEntry>): seq<LeaderboardEntry> {
    Ranked(Sort(key, data))
  }

  lemma StripCons(x: LeaderboardEntry, s: seq<LeaderboardEntry>)
    ensures Strip([x] + s) == [Unranked(x)] + Strip(s)
    ensures multiset(Strip([x] + s)) == multiset{Unranked(x)} + multiset(Strip(s))
  {
    assert ([x] + s)[1..] == s;
  }

  /** The step of `InsertKeepsRows` where `e` goes past the first row. */
  lemma InsertLaterKeepsRows(key: SortKey, e: LeaderboardEntry, t: seq<LeaderboardEntry>)
    requires |t| > 0 && !Before(key, e, t[0])
    requires multiset(Strip(Insert(key, e, t[1..]))) == multiset(Strip(t[1..])) + multiset{Unranked(e)}
    ensures multiset(Strip(Insert(key, e, t))) == multiset(Strip(t)) + multiset{Unranked(e)}
  {
    var tail := t[1..];
    var rest := Insert(key, e, tail);
    assert Insert(key, e, t) == [t[0]] + rest;
    assert t == [t[0]] + tail;
    StripCons(t[0], rest);
    StripCons(t[0], tail);
  }

  /** The rows of `Insert(key, e, t)`, ranks forgotten, are those of `t` and `e`. */
  lemma {:induction false} InsertKeepsRows(key: SortKey, e: LeaderboardEntry, t: seq<LeaderboardEntry>)
    ensures multiset(Strip(Insert(key, e, t))) == multiset(Strip(t)) + multiset{Unranked(e)}
    decreases |t|
  {
    if |t| == 0 {
      assert Strip(Insert(key, e, t)) == [Unranked(e)];
    } else if Before(key, e, t[0]) {
      StripCons(e, t);
    } else {
      InsertKeepsRows(key, e, t[1..]);
      InsertLaterKeepsRows(key, e, t);
    }
  }

  lemma {:induction false} SortKeepsRows(key: SortKey, s: seq<LeaderboardEntry>)
    ensures multiset(Strip(Sort(key, s))) == multiset(Strip(s))
    decreases |s|
  {
    if |s| > 0 {
      SortKeepsRows(key, s[1..]);
      InsertKeepsRows(key, s[0], Sort(key, s[1..]));
      assert Strip(s) == [Unranked(s[0])] + Strip(s[1..]);
    }
  }

  /** Numbering the rows keeps them in order: the order ignores ranks. */
  lemma RankedKeepsOrder(key: SortKey, s: seq<LeaderboardEntry>)
    requires Sorted(key, s)
    ensures Sorted(key, Ranked(s))
  {
    var r := Ranked(s);
    forall i, j | 0 <= i < j < |r|
      ensures Before(key, r[i], r[j])
    {
      assert Unranked(r[i]) == Unranked(s[i]) && Unranked(r[j]) == Unranked(s[j]);
    }
  }

  /** Numbering the rows changes nothing but their ranks. */
  lemma RankedKeepsRows(s: seq<LeaderboardEntry>)
    ensures Strip(Ranked(s)) == Strip(s)
  {
    StripAt(Ranked(s));
    StripAt(s);
  }

  /**
   * The sorted leaderboard: the same rows, apart from their ranks, in the
   * chosen order, ranked 1 to n.
   */
  lemma SortedDataSpec(key: SortKey, data: seq<LeaderboardEntry>)
    ensures |SortedData(key, data)| == |data|
    ensures forall i :: 0 <= i < |data| ==> SortedData(key, data)[i].rank == i + 1
    ensures Sorted(key, SortedData(key, data))
    ensures multiset(Strip(SortedData(key, data))) == multiset(Strip(data))
  {
    var s := Sort(key, data);
    SortSorted(key, data);
    SortKeepsRows(key, data);
    RankedKeepsOrder(key, s);
    RankedKeepsRows(s);
  }

  /** What the order means for each column. */
  lemma SortedColumns(key: SortKey, data: seq<LeaderboardEntry>)
    ensures var r := SortedData(key, data);
      forall i, j :: 0 <= i < j < |r| ==>
        (key == Marcz ==> r[i].marcz >= r[j].marcz)
        && (key == Level ==> r[i].level >= r[j].level)
        && (key == FastestTime && r[i].fastestTime.None? ==> r[j].fastestTime.None?)
        && (key == FastestTime && r[j].fastestTime.Some? ==>
              r[i].fastestTime.Some? && r[i].fastestTime.value <= r[j].fastestTime.value)
  {
    SortedDataSpec(key, data);
  }

  /** Every row of the data is listed in the sorted leaderboard, under some rank. */
  lemma RowIsListed(key: SortKey, data: seq<LeaderboardEntry>, k: int)
    requires 0 <= k < |data|
    ensures exists i :: 0 <= i < |SortedData(key, data)| && Unranked(SortedData(key, data)[i]) == Unranked(data[k])
  {
    var r := SortedData(key, data);
    SortedDataSpec(key, data);
    StripAt(data);
    StripAt(r);
    assert Strip(data)[k] == Unranked(data[k]);
    assert Unranked(data[k]) in multiset(Strip(r));
    var i :| 0 <= i < |r| && Strip(r)[i] == Unranked(data[k]);
  }

  /** The signed-in player's row appears in the sorted leaderboard under some rank. */
  lemma PlayerIsListed(key: SortKey, user: User)
    ensures var r := SortedData(key, App.LeaderboardData(Some(user)));
      exists i :: 0 <= i < |r| && r[i].isPlayer && Unranked(r[i]) == Unranked(App.PlayerEntry(user))
  {
    var data := App.LeaderboardData(Some(user));
    RowIsListed(key, data, |data| - 1);
  }
}
