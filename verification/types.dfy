/**
 * The records of types.ts. Numbers that the game only ever fills with whole
 * values (coordinates, levels, points, seconds) are `int`; the $MARCZ balance
 * and the leaderboard's times may be fractional and are `real`.
 */
module Types {
  import opened Wrappers

  /** A grid coordinate: column `x`, row `y`. */
  datatype Pos = Pos(x: int, y: int)

  /** The four walls of a cell; `true` means the wall is present. */
  datatype Walls = Walls(top: bool, right: bool, bottom: bool, left: bool)

  /** One maze cell. `visited` is scratch state of the generator. */
  datatype Cell = Cell(
    x: int,
    y: int,
    walls: Walls,
    isStart: bool,
    isEnd: bool,
    hasItem: bool,
    visited: bool)

  datatype PlayerStats = PlayerStats(
    level: int,
    totalPoints: int,
    marczBalance: real,
    fastestTime: Option<int>)

  /**
   * An account. `username` and `avatar` are only ever set by a profile
   * update, so they are absent on a freshly created account.
   */
  datatype User = User(
    email: string,
    password: string,
    stats: PlayerStats,
    username: Option<string>,
    avatar: Option<string>)

  datatype LeaderboardEntry = LeaderboardEntry(
    rank: int,
    name: Option<string>,
    marcz: real,
    fastestTime: Option<real>,
    level: int,
    isPlayer: bool)
}
