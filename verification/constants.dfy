/** Point values and the mock leaderboard of constants.ts. */
module Constants {
  import opened Wrappers
  import opened Types

  const LEVEL_COMPLETE: int := 100
  const HIDDEN_ITEM: int := 25
  const TIME_BONUS_PER_SECOND: int := 1

  function MockEntry(rank: int, name: string, marcz: real, fastestTime: real, level: int): LeaderboardEntry {
    LeaderboardEntry(rank, Some(name), marcz, Some(fastestTime), level, false)
  }

  /** The eight fixed rivals every leaderboard starts from. */
  const MOCK_LEADERBOARD_DATA: seq<LeaderboardEntry> := [
    MockEntry(1, "CypherRunner", 15234.0, 28.4, 42),
    MockEntry(2, "GlitchWitch", 14890.0, 31.2, 40),
    MockEntry(3, "NeonNinja", 13500.0, 29.8, 38),
    MockEntry(4, "DataDrifter", 12100.0, 35.1, 35),
    MockEntry(5, "ChronoByte", 11560.0, 33.5, 33),
    MockEntry(6, "VoidWalker", 10800.0, 38.0, 31),
    MockEntry(7, "SyntaxShadow", 9750.0, 40.3, 29),
    MockEntry(8, "GridGhost", 8900.0, 42.1, 27)
  ]
}
