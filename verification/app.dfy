/**
 * The account updates of App.tsx: the signed-in user after a level, after a
 * points conversion and after a profile edit, signing in by email, saving the
 * signed-in user, and the leaderboard rows with the player appended.
 *
 * Every updater receives the previous user, `None` when nobody is signed in,
 * and returns the next one.
 */
module App {
  import opened Wrappers
  import opened Types
  import opened Constants
  import opened Accounts

  /** The better of a stored best time and a new time; no stored time counts as infinitely slow. */
  function BestTime(best: Option<int>, time: int): (t: int)
    ensures t <= time
    ensures best.Some? ==> t <= best.value
    ensures t == time || best == Some(t)
  {
    if best.None? || time < best.value then time else best.value
  }

  /** `updatePlayerStats(points, time)`: one level up, the points added, the best time kept. */
  function UpdatePlayerStats(user: Option<User>, points: int, time: int): (r: Option<User>)
    ensures user.None? <==> r.None?
    ensures r.Some? ==> r.value.stats.level == user.value.stats.level + 1
    ensures r.Some? ==> r.value.stats.totalPoints == user.value.stats.totalPoints + points
    ensures r.Some? ==> r.value.stats.marczBalance == user.value.stats.marczBalance
    ensures r.Some? ==> r.value.stats.fastestTime.Some?
    ensures r.Some? ==> r.value.stats.fastestTime.value <= time
    ensures r.Some? && user.value.stats.fastestTime.Some? ==>
      r.value.stats.fastestTime.value <= user.value.stats.fastestTime.value
    ensures r.Some? ==>
      r.value.stats.fastestTime == Some(time) || r.value.stats.fastestTime == user.value.stats.fastestTime
    ensures r.Some? ==> r.value.(stats := user.value.stats) == user.value
  {
    match user
    case None => None
    case Some(u) =>
      var stats := u.stats.(
        level := u.stats.level + 1,
        totalPoints := u.stats.totalPoints + points,
        fastestTime := Some(BestTime(u.stats.fastestTime, time)));
      Some(u.(stats := stats))
  }

  /** The sum of the points of a sequence of completed levels. */
  function TotalPoints(runs: seq<(int, int)>): int {
    if |runs| == 0 then 0 else runs[0].0 + TotalPoints(runs[1..])
  }

  /** The fastest of a stored best time and the times of a sequence of completed levels. */
  function Fastest(best: Option<int>, runs: seq<(int, int)>): Option<int>
    decreases |runs|
  {
    if |runs| == 0 then best else Fastest(Some(BestTime(best, runs[0].1)), runs[1..])
  }

  /** The signed-in user after completing the levels `runs`, each with its points and time, in order. */
  function AfterLevels(user: Option<User>, runs: seq<(int, int)>): Option<User>
    decreases |runs|
  {
    if |runs| == 0 then user else AfterLevels(UpdatePlayerStats(user, runs[0].0, runs[0].1), runs[1..])
  }

  /** The best time is the minimum over every recorded time. */
  lemma {:induction false} FastestIsMinimum(best: Option<int>, runs: seq<(int, int)>)
    requires |runs| > 0 || best.Some?
    ensures Fastest(best, runs).Some?
    ensures forall i :: 0 <= i < |runs| ==> Fastest(best, runs).value <= runs[i].1
    ensures best.Some? ==> Fastest(best, runs).value <= best.value
    ensures best == Fastest(best, runs) || exists i :: 0 <= i < |runs| && Fastest(best, runs).value == runs[i].1
    decreases |runs|
  {
    if |runs| > 0 {
      var next := Some(BestTime(best, runs[0].1));
      FastestIsMinimum(next, runs[1..]);
      var f := Fastest(best, runs);
      assert f == Fastest(next, runs[1..]);
      forall i | 0 <= i < |runs|
        ensures f.value <= runs[i].1
      {
        if i > 0 {
          assert runs[i] == runs[1..][i - 1];
        }
      }
      if f != next {
        var j :| 0 <= j < |runs[1..]| && f.value == runs[1..][j].1;
        assert f.value == runs[j + 1].1;
      } else if f != best {
        assert f.value == runs[0].1;
      }
    }
  }

  /** After any sequence of levels: the level count, the points and the best time add up. */
  lemma {:induction false} AfterLevelsTotals(user: Option<User>, runs: seq<(int, int)>)
    requires user.Some?
    ensures AfterLevels(user, runs).Some?
    ensures AfterLevels(user, runs).value.stats.level == user.value.stats.level + |runs|
    ensures AfterLevels(user, runs).value.stats.totalPoints == user.value.stats.totalPoints + TotalPoints(runs)
    ensures AfterLevels(user, runs).value.stats.fastestTime == Fastest(user.value.stats.fastestTime, runs)
    ensures AfterLevels(user, runs).value.stats.marczBalance == user.value.stats.marczBalance
    ensures AfterLevels(user, runs).value.(stats := user.value.stats) == user.value
    decreases |runs|
  {
    if |runs| > 0 {
      var next := UpdatePlayerStats(user, runs[0].0, runs[0].1);
      AfterLevelsTotals(next, runs[1..]);
    }
  }

  /** `points / 10` as the source's floating division: ten points make one $MARCZ. */
  function MarczFor(points: int): (m: real)
    ensures m * 10.0 == points as real
  {
    points as real / 10.0
  }

  /**
   * `convertPointsToMarcz(points)`: the points leave the point total and
   * arrive, divided by ten, in the balance. The earned amount is returned
   * whether or not anyone is signed in.
   */
  function ConvertPointsToMarcz(user: Option<User>, points: int): (r: (Option<User>, real))
    ensures r.1 * 10.0 == points as real
    ensures user.None? <==> r.0.None?
    ensures r.0.Some? ==> r.0.value.stats.totalPoints == user.value.stats.totalPoints - points
    ensures r.0.Some? ==> r.0.value.stats.marczBalance == user.value.stats.marczBalance + r.1
    ensures r.0.Some? ==> r.0.value.stats.level == user.value.stats.level
    ensures r.0.Some? ==> r.0.value.stats.fastestTime == user.value.stats.fastestTime
    ensures r.0.Some? ==> r.0.value.(stats := user.value.stats) == user.value
  {
    var earned := MarczFor(points);
    match user
    case None => (None, earned)
    case Some(u) =>
      var stats := u.stats.(
        totalPoints := u.stats.totalPoints - points,
        marczBalance := u.stats.marczBalance + earned);
      (Some(u.(stats := stats)), earned)
  }

  /** A user's worth in points: unconverted points plus ten per $MARCZ. */
  function Worth(u: User): real {
    u.stats.totalPoints as real + 10.0 * u.stats.marczBalance
  }

  /** Converting never creates or destroys value, whatever the amount. */
  lemma ConversionConservesWorth(user: User, points: int)
    ensures ConvertPointsToMarcz(Some(user), points).0.Some?
    ensures Worth(ConvertPointsToMarcz(Some(user), points).0.value) == Worth(user)
  {
    var r := ConvertPointsToMarcz(Some(user), points);
    assert r.1 * 10.0 == points as real;
  }

  /** Converting the whole point total, as the rewards page does, empties it into the balance. */
  lemma ConvertEverything(user: User)
    ensures var r := ConvertPointsToMarcz(Some(user), user.stats.totalPoints);
      r.0.Some? && r.0.value.stats.totalPoints == 0
      && r.0.value.stats.marczBalance * 10.0 == user.stats.marczBalance * 10.0 + user.stats.totalPoints as real
  {
  }

  /** `handleProfileUpdate`: the new name and avatar replace the old ones; nothing else changes. */
  function HandleProfileUpdate(user: Option<User>, username: string, avatar: string): (r: Option<User>)
    ensures user.None? <==> r.None?
    ensures r.Some? ==> r.value.username == Some(username) && r.value.avatar == Some(avatar)
    ensures r.Some? ==> r.value.email == user.value.email && r.value.password == user.value.password
    ensures r.Some? ==> r.value.stats == user.value.stats
  {
    match user
    case None => None
    case Some(u) => Some(u.(username := Some(username), avatar := Some(avatar)))
  }

  /** Only the last profile edit counts. */
  lemma ProfileUpdateOverwrites(user: Option<User>, n1: string, a1: string, n2: string, a2: string)
    ensures HandleProfileUpdate(HandleProfileUpdate(user, n1, a1), n2, a2) == HandleProfileUpdate(user, n2, a2)
  {
  }

  /** `handleLogin(email)`: the stored account becomes the signed-in user; an unknown email changes nothing. */
  function HandleLogin(current: Option<User>, store: Store, email: string): (r: Option<User>)
    ensures email in store ==> r == Some(store[email])
    ensures email !in store ==> r == current
  {
    if email in store then Some(store[email]) else current
  }

  /** The effect that writes the signed-in user back to the store whenever it changes. */
  function Persist(store: Store, current: Option<User>): (s: Store)
    ensures current.None? ==> s == store
    ensures current.Some? ==> s == SaveUser(store, current.value)
  {
    if current.Some? then SaveUser(store, current.value) else store
  }

  /** A signed-in user whose updates are persisted is found again by a later sign-in with the same email. */
  lemma PersistedUserSignsBackIn(store: Store, user: User, points: int, time: int)
    ensures var u := UpdatePlayerStats(Some(user), points, time);
      HandleLogin(None, Persist(store, u), user.email) == u
  {
  }

  /** The player's own leaderboard row; it is ranked later, by the sort. */
  function PlayerEntry(u: User): (e: LeaderboardEntry)
    ensures e.isPlayer && e.rank == 0 && e.name == u.username
    ensures e.marcz == u.stats.marczBalance && e.level == u.stats.level
    ensures e.fastestTime.Some? <==> u.stats.fastestTime.Some?
    ensures e.fastestTime.Some? ==> e.fastestTime.value == u.stats.fastestTime.value as real
  {
    LeaderboardEntry(
      0, u.username, u.stats.marczBalance,
      if u.stats.fastestTime.Some? then Some(u.stats.fastestTime.value as real) else None,
      u.stats.level, true)
  }

  /** `leaderboardData`: the fixed rivals, then the signed-in player. */
  function LeaderboardData(user: Option<User>): (rows: seq<LeaderboardEntry>)
    ensures user.None? ==> rows == MOCK_LEADERBOARD_DATA
    ensures user.Some? ==> |rows| == |MOCK_LEADERBOARD_DATA| + 1
    ensures user.Some? ==> rows[..|MOCK_LEADERBOARD_DATA|] == MOCK_LEADERBOARD_DATA
    ensures user.Some? ==> rows[|MOCK_LEADERBOARD_DATA|] == PlayerEntry(user.value)
  {
    if user.None? then MOCK_LEADERBOARD_DATA else MOCK_LEADERBOARD_DATA + [PlayerEntry(user.value)]
  }

  /** Exactly the last row is the player's, and at most that row lacks a time. */
  lemma OnePlayerRow(user: User)
    ensures var rows := LeaderboardData(Some(user));
      forall i :: 0 <= i < |rows| ==> (rows[i].isPlayer <==> i == |rows| - 1)
    ensures var rows := LeaderboardData(Some(user));
      forall i :: 0 <= i < |rows| - 1 ==> rows[i].fastestTime.Some?
  {
    var rows := LeaderboardData(Some(user));
    forall i | 0 <= i < |rows| - 1
      ensures !rows[i].isPlayer && rows[i].fastestTime.Some?
    {
      assert rows[i] == MOCK_LEADERBOARD_DATA[i];
    }
  }
}
